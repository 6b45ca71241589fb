/**
  The texts the two networks are compared by: a Mastodon status's text
  (`mastodon_toot_get_text`) and a Bluesky post's decoded text
  (`bsky_post_unshorten_decode`), with the repost and quote markers.
 */
module PostText {
  import opened Wrappers
  import opened Text
  import opened Records
  import opened RecordText
  import opened Shorten
  import ShortenFacts

  /** The recycling symbol and its emoji variation selector, the marker of a
      boost or repost. */
  const RepostMarker: string := "\U{267B}\U{FE0F}"

  /** The speech balloon the quoted post follows. */
  const QuoteMarker: string := "\U{1F4AC}"

  // ---------------------------------------------------------------------
  // mastodon_toot_get_text
  // ---------------------------------------------------------------------

  /** The HTML of a status; a boost's is prefixed with the booster's marker
      and the boosted account. */
  function TootContent(toot: Toot): string {
    match toot.reblog
    case None => toot.content
    case Some(reblog) => RepostMarker + " " + reblog.username + ": " + reblog.content
  }

  /** The literal replacements of line breaks and paragraphs, in the
      source's order. */
  function MarkupReplaced(s: string): string {
    var a := ReplaceAll(s, "<br />", "\n");
    var b := ReplaceAll(a, "<br>", "\n");
    var c := ReplaceAll(b, "</p><p>", "\n\n");
    var d := ReplaceAll(c, "<p>", "");
    ReplaceAll(d, "</p>", "")
  }

  /** `mastodon_toot_get_text`: markup replaced, then the remaining tags
      stripped and the entities decoded by the HTML helpers. */
  function MastodonTootText(toot: Toot, html: Html): (r: string)
    ensures Without(TootContent(toot), '<') ==> r == html.decodeEntities(html.stripTags(TootContent(toot)))
  {
    var content := TootContent(toot);
    if Without(content, '<') then
      MarkupReplacedPlain(content);
      html.decodeEntities(html.stripTags(MarkupReplaced(content)))
    else html.decodeEntities(html.stripTags(MarkupReplaced(content)))
  }

  /** A text without `c`. */
  predicate Without(s: string, c: char) {
    forall k :: 0 <= k < |s| ==> s[k] != c
  }

  /** A pattern whose first character never occurs does not occur. */
  lemma AbsentHead(s: string, pat: string)
    requires pat != [] && Without(s, pat[0])
    ensures !Contains(s, pat)
  {
    forall i | 0 <= i <= |s| ensures !OccursAt(s, pat, i) {
      if i + |pat| <= |s| {
        assert s[i..i + |pat|][0] == s[i];
      }
    }
  }

  /** An occurrence starts with the pattern's first two characters. */
  lemma OccursHead(s: string, pat: string, i: nat)
    requires |pat| >= 2
    ensures OccursAt(s, pat, i) ==> i + 1 < |s| && s[i] == pat[0] && s[i + 1] == pat[1]
  {
    if OccursAt(s, pat, i) {
      assert s[i..i + |pat|][1] == s[i + 1];
    }
  }

  /** Characters that cannot start the pattern are copied as they are. */
  lemma {:induction false} ReplaceAllSkip(a: string, s: string, pat: string, rep: string)
    requires pat != [] && Without(a, pat[0])
    requires |s| < |pat| ==> ReplaceAll(s, pat, rep) == s
    ensures ReplaceAll(a + s, pat, rep) == a + ReplaceAll(s, pat, rep)
    decreases |a|
  {
    if a == [] {
      assert a + s == s;
    } else {
      var t := a + s;
      var a' := a[1..];
      WithoutTail(a, pat[0]);
      assert t[0] == a[0] && t[1..] == a' + s;
      ReplaceAllSkip(a', s, pat, rep);
      var r := ReplaceAll(s, pat, rep);
      if |t| >= |pat| {
        assert t[..|pat|][0] == a[0];
        assert ReplaceAll(t, pat, rep) == [a[0]] + ReplaceAll(a' + s, pat, rep);
      } else {
        assert ReplaceAll(a' + s, pat, rep) == a' + s;
        assert |s| < |pat|;
      }
      Concat3([a[0]], a', r);
      assert [a[0]] + a' == a;
    }
  }

  lemma WithoutTail(a: string, c: char)
    requires a != [] && Without(a, c)
    ensures Without(a[1..], c)
  {
    forall k | 0 <= k < |a[1..]| ensures a[1..][k] != c {
      assert a[1..][k] == a[k + 1];
    }
  }

  /** A pattern at the front is replaced. */
  lemma ReplaceAllHead(s: string, pat: string, rep: string)
    requires pat != []
    ensures ReplaceAll(pat + s, pat, rep) == rep + ReplaceAll(s, pat, rep)
  {
    assert (pat + s)[..|pat|] == pat && (pat + s)[|pat|..] == s;
  }

  /** Text without markup passes the replacements untouched. */
  lemma MarkupReplacedPlain(s: string)
    requires Without(s, '<')
    ensures MarkupReplaced(s) == s
  {
    AbsentHead(s, "<br />");
    ReplaceAbsent(s, "<br />", "\n");
    AbsentHead(s, "<br>");
    ReplaceAbsent(s, "<br>", "\n");
    AbsentHead(s, "</p><p>");
    ReplaceAbsent(s, "</p><p>", "\n\n");
    AbsentHead(s, "<p>");
    ReplaceAbsent(s, "<p>", "");
    AbsentHead(s, "</p>");
    ReplaceAbsent(s, "</p>", "");
  }

  lemma WithoutAppend(a: string, b: string, c: char)
    requires Without(a, c) && Without(b, c)
    ensures Without(a + b, c)
  {
    forall k | 0 <= k < |a + b| ensures (a + b)[k] != c {
      if k >= |a| { assert (a + b)[k] == b[k - |a|]; }
    }
  }

  /** Two paragraphs become two lines with a blank line between them: the
      paragraph break is replaced before the single paragraph tags are
      removed. */
  lemma ParagraphsBecomeBlankLine(x: string, y: string)
    requires Without(x, '<') && Without(y, '<')
    ensures MarkupReplaced("<p>" + x + "</p><p>" + y + "</p>") == x + "\n\n" + y
  {
    var s := "<p>" + x + "</p><p>" + y + "</p>";
    // Neither line break occurs: every '<' is followed by 'p' or '/'.
    assert !Contains(s, "<br />") && !Contains(s, "<br>") by {
      var a := 3 + |x|;
      var b := a + 7;
      var e := b + |y|;
      assert s[..3] == "<p>" && s[3..a] == x && s[a..b] == "</p><p>" && s[b..e] == y && s[e..] == "</p>";
      forall i | 0 <= i < |s| ensures s[i] == '<' ==> i + 1 < |s| && s[i + 1] != 'b' {
        if i < 3 {
          assert s[..3][i] == s[i] && s[..3][1] == s[1];
        } else if i < a {
          assert s[3..a][i - 3] == s[i];
        } else if i < b {
          assert s[a..b][i - a] == s[i];
          if i + 1 < b { assert s[a..b][i + 1 - a] == s[i + 1]; }
        } else if i < e {
          assert s[b..e][i - b] == s[i];
        } else {
          assert s[e..][i - e] == s[i];
          if i + 1 < |s| { assert s[e..][i + 1 - e] == s[i + 1]; }
        }
      }
      forall i | 0 <= i <= |s| ensures !OccursAt(s, "<br />", i) && !OccursAt(s, "<br>", i) {
        OccursHead(s, "<br />", i);
        OccursHead(s, "<br>", i);
      }
    }
    ReplaceAbsent(s, "<br />", "\n");
    ReplaceAbsent(s, "<br>", "\n");
    var c := ParagraphBreakStep(x, y);
    var d := OpeningTagStep(x, y);
    ClosingTagStep(x, y);
  }

  /** `</p><p>` becomes a blank line; the opening and closing tags stay. */
  lemma ParagraphBreakStep(x: string, y: string) returns (c: string)
    requires Without(x, '<') && Without(y, '<')
    ensures c == "<p>" + x + "\n\n" + y + "</p>"
    ensures ReplaceAll("<p>" + x + "</p><p>" + y + "</p>", "</p><p>", "\n\n") == c
  {
    var pat := "</p><p>";
    var rest := pat + (y + "</p>");
    c := "<p>" + x + "\n\n" + y + "</p>";
    ParagraphBreakTail(y);
    ParagraphBreakHead(x, rest);
    assert "<" + ("p>" + x + rest) == "<p>" + x + "</p><p>" + y + "</p>";
    assert "<" + ("p>" + x + ("\n\n" + y + "</p>")) == c;
  }

  /** Nothing before the break is replaced: its first character is the
      `<` of `<p>`, which does not start `</p><p>`, and `x` has no `<`. */
  lemma ParagraphBreakHead(x: string, rest: string)
    requires Without(x, '<') && |rest| >= 7
    ensures ReplaceAll("<" + ("p>" + x + rest), "</p><p>", "\n\n")
            == "<" + ("p>" + x + ReplaceAll(rest, "</p><p>", "\n\n"))
  {
    var pat := "</p><p>";
    assert pat[1] == '/';
    var head := "p>" + x;
    assert Without("p>", '<');
    WithoutAppend("p>", x, '<');
    ReplaceAllSkip(head, rest, pat, "\n\n");
    var t := head + rest;
    assert t[0] == 'p' && |t| >= 7;
    ReplaceAllPassOver('<', t, pat, "\n\n");
  }

  /** A character that does not start the pattern's occurrence is kept,
      and the replacement goes on after it. */
  lemma ReplaceAllPassOver(c: char, s: string, pat: string, rep: string)
    requires |pat| >= 2 && pat[1] != 'p' && |s| + 1 >= |pat| && |s| >= 1 && s[0] == 'p'
    ensures ReplaceAll([c] + s, pat, rep) == [c] + ReplaceAll(s, pat, rep)
  {
    var t := [c] + s;
    assert t[1] == 'p';
    assert t[..|pat|] != pat by { assert t[..|pat|][1] == t[1]; }
    assert t[1..] == s;
  }

  /** The break itself becomes the blank line, and the second paragraph
      is left as it is. */
  lemma ParagraphBreakTail(y: string)
    requires Without(y, '<')
    ensures ReplaceAll("</p><p>" + (y + "</p>"), "</p><p>", "\n\n") == "\n\n" + y + "</p>"
  {
    var pat := "</p><p>";
    assert ReplaceAll("</p>", pat, "\n\n") == "</p>";
    ReplaceAllSkip(y, "</p>", pat, "\n\n");
    ReplaceAllHead(y + "</p>", pat, "\n\n");
  }

  /** The opening tag is removed. */
  lemma OpeningTagStep(x: string, y: string) returns (d: string)
    requires Without(x, '<') && Without(y, '<')
    ensures d == x + "\n\n" + y + "</p>"
    ensures ReplaceAll("<p>" + x + "\n\n" + y + "</p>", "<p>", "") == d
  {
    var pat := "<p>";
    d := x + "\n\n" + y + "</p>";
    var tail := "</p>";
    ClosingTagKept();
    assert Without("\n\n", '<');
    WithoutAppend(x, "\n\n", '<');
    WithoutAppend(x + "\n\n", y, '<');
    ReplaceAllSkip(x + "\n\n" + y, tail, pat, "");
    ReplaceAllHead(x + "\n\n" + y + tail, pat, "");
    assert "<p>" + x + "\n\n" + y + "</p>" == pat + (x + "\n\n" + y + tail);
  }

  /** The closing tag holds no opening tag. */
  lemma ClosingTagKept()
    ensures ReplaceAll("</p>", "<p>", "") == "</p>"
  {
    var pat := "<p>";
    var s2 := "p>";
    var s3 := "/p>";
    var s4 := "</p>";
    assert ReplaceAll(s2, pat, "") == s2;
    assert s3[..3] == s3 && s3[0] != pat[0];
    assert s3[1..] == s2;
    assert ReplaceAll(s3, pat, "") == [s3[0]] + s2;
    assert s4[..3][1] == '/' && pat[1] == 'p';
    assert s4[1..] == s3;
    assert ReplaceAll(s4, pat, "") == [s4[0]] + s3;
  }

  /** The closing tag is removed. */
  lemma ClosingTagStep(x: string, y: string)
    requires Without(x, '<') && Without(y, '<')
    ensures ReplaceAll(x + "\n\n" + y + "</p>", "</p>", "") == x + "\n\n" + y
  {
    var pat := "</p>";
    assert ReplaceAll([], pat, "") == [];
    ReplaceAllHead([], pat, "");
    assert pat + [] == pat;
    assert Without("\n\n", '<');
    WithoutAppend(x, "\n\n", '<');
    WithoutAppend(x + "\n\n", y, '<');
    ReplaceAllSkip(x + "\n\n" + y, pat, pat, "");
  }

  // ---------------------------------------------------------------------
  // bsky_post_unshorten_decode
  // ---------------------------------------------------------------------

  /** The record of the post and of its quoted post give a text: the
      source's `expect` on the UTF-8 of the spliced bytes holds. */
  predicate Decodable(post: BskyPost) {
    && TextOfRecord(post.record).Some?
    && (post.quote.Some? ==> TextOfRecord(post.quote.value.record).Some?)
  }

  /** A repost is prefixed with the marker and the original author. */
  function RepostPrefixed(post: BskyPost, text: string): string {
    if post.repostedByViewer then RepostMarker + " " + post.authorHandle + ": " + text else text
  }

  /** The quoted post follows after a blank line, marked and with its
      author; the whole is trimmed. */
  function WithQuote(text: string, handle: string, quoteText: string): string {
    Trim(text + "\n\n" + QuoteMarker + " " + handle + ": " + quoteText)
  }

  /** The full text of a post before it is fitted to Mastodon's limit. */
  function DecodedText(post: BskyPost): (r: string)
    requires Decodable(post)
    ensures post.quote.None? && !post.repostedByViewer ==> r == TextOfRecord(post.record).value
    ensures post.quote.None? && post.repostedByViewer ==>
              StartsWith(r, RepostMarker + " " + post.authorHandle + ": ")
  {
    var own := TextOfRecord(post.record).value;
    var head := RepostMarker + " " + post.authorHandle + ": ";
    assert (head + own)[..|head|] == head;
    var text := RepostPrefixed(post, own);
    match post.quote
    case None => text
    case Some(q) => WithQuote(text, q.authorHandle, TextOfRecord(q.record).value)
  }

  /** `bsky_post_unshorten_decode`. */
  function BskyPostUnshortenDecode(post: BskyPost): (r: string)
    requires Decodable(post)
    ensures MastodonTextLength(DecodedText(post)) <= MastodonLimit ==> r == DecodedText(post)
    ensures NoWhitespace(post.authorHandle) && NoWhitespace(PostId(post.uri)) ==> MastodonTextLength(r) <= MastodonLimit
  {
    if NoWhitespace(post.authorHandle) && NoWhitespace(PostId(post.uri)) then
      ShortenFacts.TootShortenedFits(DecodedText(post), post.authorHandle, post.uri);
      TootShortened(DecodedText(post), post.authorHandle, post.uri)
    else TootShortened(DecodedText(post), post.authorHandle, post.uri)
  }

  /** The quote marker is not white space, so trimming does not reach
      past it: the quote follows the text's own words, which stay in front. */
  lemma WithQuoteKeepsText(text: string, handle: string, quoteText: string)
    requires text != [] && !IsWhitespace(text[0])
    ensures StartsWith(WithQuote(text, handle, quoteText), text)
  {
    var s := text + "\n\n" + QuoteMarker + " " + handle + ": " + quoteText;
    assert s[..|text|] == text;
    assert s[|text| + 2] == '\U{1F4AC}';
    TrimKeepsPrefix(s, |text|, |text| + 2);
  }

  /** Trimming a text whose first character and a later one are visible
      keeps everything up to that later character. */
  lemma TrimKeepsPrefix(s: string, n: nat, m: nat)
    requires 0 < n < m < |s| && !IsWhitespace(s[0]) && !IsWhitespace(s[m])
    ensures StartsWith(Trim(s), s[..n])
  {
    TrimVisible(s, m);
  }

  lemma TrimVisible(s: string, m: nat)
    requires m < |s| && !IsWhitespace(s[0]) && !IsWhitespace(s[m])
    ensures |Trim(s)| > m && Trim(s)[..m + 1] == s[..m + 1]
  {
    assert TrimStart(s) == s;
    TrimEndVisible(s, m);
  }

  lemma {:induction false} TrimEndVisible(s: string, m: nat)
    requires m < |s| && !IsWhitespace(s[m])
    ensures |TrimEnd(s)| > m && TrimEnd(s)[..m + 1] == s[..m + 1]
    decreases |s|
  {
    if IsWhitespace(s[|s| - 1]) {
      assert s[..|s| - 1][m] == s[m];
      TrimEndVisible(s[..|s| - 1], m);
      assert s[..|s| - 1][..m + 1] == s[..m + 1];
    }
  }

}
