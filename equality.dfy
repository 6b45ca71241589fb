/**
  When a Mastodon status and a Bluesky post count as the same post: both or
  neither are replies, and their texts agree once unified, either directly
  or after the status's text is fitted to Bluesky's limit.
 */
module Equality {
  import opened Wrappers
  import opened Text
  import opened Records
  import opened Shorten
  import opened PostText
  import opened Search

  /** `unify_post_content`: lowercased, then every `http://` and after that
      every `https://` removed. */
  function Unify(content: string): (r: string)
    ensures |r| <= |content|
  {
    var once := ReplaceAll(Lower(content), "http://", "");
    ReplaceAllLength(Lower(content), "http://", "");
    ReplaceAllLength(once, "https://", "");
    ReplaceAll(once, "https://", "")
  }

  /** The URL a shortened status links to: the boosted status's for a
      boost. */
  function TootUrl(toot: Toot): Option<string> {
    match toot.reblog
    case None => toot.url
    case Some(reblog) => reblog.url
  }

  /** Both are replies or neither is. */
  predicate SameStructure(toot: Toot, post: BskyPost) {
    toot.inReplyToId.Some? == post.isReply
  }

  /** `toot_and_post_are_equal`. The Bluesky post is decoded only once the
      structure agrees. */
  predicate TootAndPostAreEqual(toot: Toot, post: BskyPost, html: Html): (equal: bool)
    requires SameStructure(toot, post) ==> Decodable(post)
    ensures equal ==> SameStructure(toot, post)
    ensures SameStructure(toot, post) && Lower(MastodonTootText(toot, html)) == Lower(BskyPostUnshortenDecode(post)) ==> equal
  {
    if !SameStructure(toot, post) then false
    else
      var tootText := Unify(MastodonTootText(toot, html));
      var bskyText := Unify(BskyPostUnshortenDecode(post));
      tootText == bskyText || Unify(BskyPostShortened(tootText, TootUrl(toot))) == bskyText
  }

  /** A call of `toot_and_post_are_equal` as its caller sees it: yes, no,
      or a panic when the structure agrees and the post has no text to
      decode. */
  function Comparison(toot: Toot, post: BskyPost, html: Html): Answer {
    if SameStructure(toot, post) && !Decodable(post) then Panics
    else if TootAndPostAreEqual(toot, post, html) then Yes
    else No
  }

  // ---------------------------------------------------------------------
  // Properties
  // ---------------------------------------------------------------------

  /** A reply never equals a post that is not one, in either direction. */
  lemma ReplyNeverEqualsNonReply(toot: Toot, post: BskyPost, html: Html)
    requires toot.inReplyToId.Some? != post.isReply
    ensures !TootAndPostAreEqual(toot, post, html)
  {
  }

  /** Texts that agree up to case are recognised as the same post. */
  lemma SameTextIsEqual(toot: Toot, post: BskyPost, html: Html)
    requires SameStructure(toot, post) && Decodable(post)
    requires Lower(MastodonTootText(toot, html)) == Lower(BskyPostUnshortenDecode(post))
    ensures TootAndPostAreEqual(toot, post, html)
  {
  }

  /** The status fitted to Bluesky's limit is recognised too: when the
      Bluesky text is the fitted unified status text, unified again. */
  lemma ShortenedTextIsEqual(toot: Toot, post: BskyPost, html: Html)
    requires SameStructure(toot, post) && Decodable(post)
    requires Unify(BskyPostUnshortenDecode(post))
             == Unify(BskyPostShortened(Unify(MastodonTootText(toot, html)), TootUrl(toot)))
    ensures TootAndPostAreEqual(toot, post, html)
  {
  }

  /** Every character of a replacement's result comes from the text or the
      replacement. */
  lemma {:induction false} ReplaceAllFrom(s: string, pat: string, rep: string, c: char)
    requires pat != []
    requires forall k :: 0 <= k < |s| ==> s[k] != c
    requires forall k :: 0 <= k < |rep| ==> rep[k] != c
    ensures forall k :: 0 <= k < |ReplaceAll(s, pat, rep)| ==> ReplaceAll(s, pat, rep)[k] != c
    decreases |s|
  {
    if |s| >= |pat| {
      if s[..|pat|] == pat {
        ReplaceAllFrom(s[|pat|..], pat, rep, c);
        assert ReplaceAll(s, pat, rep) == rep + ReplaceAll(s[|pat|..], pat, rep);
      } else {
        ReplaceAllFrom(s[1..], pat, rep, c);
        assert ReplaceAll(s, pat, rep) == [s[0]] + ReplaceAll(s[1..], pat, rep);
      }
    }
  }

  /** No upper-case letter survives unification. */
  lemma UnifyLowercase(content: string, c: char)
    requires 'A' <= c <= 'Z'
    ensures forall k :: 0 <= k < |Unify(content)| ==> Unify(content)[k] != c
  {
    var l := Lower(content);
    ReplaceAllFrom(l, "http://", "", c);
    ReplaceAllFrom(ReplaceAll(l, "http://", ""), "https://", "", c);
  }

  /** Lower-case text without either scheme is its own unified form. */
  lemma UnifyFixedPoint(content: string)
    requires forall k :: 0 <= k < |content| ==> !('A' <= content[k] <= 'Z')
    requires !Contains(content, "http://") && !Contains(content, "https://")
    ensures Unify(content) == content
  {
    assert Lower(content) == content;
    ReplaceAbsent(content, "http://", "");
    ReplaceAbsent(content, "https://", "");
  }

  /** Unification is not idempotent: removing `http://` can join the text
      around it into a new `http://`, which unifying again removes. */
  lemma UnifyNotIdempotent()
    ensures Unify("hthttp://tp://") == "http://"
    ensures Unify(Unify("hthttp://tp://")) == ""
  {
    UnifyJoined();
    UnifyScheme();
  }

  lemma LowerOfLowercase(s: string)
    requires forall k :: 0 <= k < |s| ==> !('A' <= s[k] <= 'Z')
    ensures Lower(s) == s
  {
  }

  lemma UnifyJoined()
    ensures Unify("hthttp://tp://") == "http://"
  {
    var s := "hthttp://tp://";
    assert forall k :: 0 <= k < |s| ==> !('A' <= s[k] <= 'Z') by {
      forall k | 0 <= k < |s| ensures !('A' <= s[k] <= 'Z') {
        assert s[k] in "hthttp://tp://";
      }
    }
    LowerOfLowercase(s);
    var a := ReplaceAll(Lower(s), "http://", "");
    JoinedScheme(s);
    assert a == "http://";
    ShorterThanPattern(a, "https://");
  }

  lemma UnifyScheme()
    ensures Unify("http://") == ""
  {
    LowerOfLowercase("http://");
    ReplaceAllHead([], "http://", "");
    assert "http://" + [] == "http://";
    assert ReplaceAll([], "https://", "") == [];
  }

  lemma ShorterThanPattern(s: string, pat: string)
    requires pat != [] && |s| < |pat|
    ensures ReplaceAll(s, pat, "") == s
  {
  }

  /** The removal of the inner `http://` leaves an outer one. */
  lemma JoinedScheme(s: string)
    requires s == "hthttp://tp://"
    ensures ReplaceAll(s, "http://", "") == "http://"
  {
    var pat := "http://";
    ShorterThanPattern("tp://", pat);
    ReplaceAllHead("tp://", pat, "");
    var t1 := s[1..];
    var t2 := s[2..];
    assert t2 == pat + "tp://";
    assert s[..7] != pat by { assert s[2] != pat[2]; }
    assert t1[..7] != pat by { assert t1[1] != pat[1]; }
    assert t1[1..] == t2;
    assert ReplaceAll(t1, pat, "") == [t1[0]] + ReplaceAll(t2, pat, "");
    assert ReplaceAll(s, pat, "") == [s[0]] + ReplaceAll(t1, pat, "");
  }
}
