/**
 Clean-up of the generator's text in `generer_article`: a Markdown code fence
 wrapped around the article (with or without a language tag such as `html`)
 is removed and the result is stripped.
 */
module Fence {
  import opened Text

  const Backticks: string := "```"

  /** Length of the opening fence: everything through the first newline,
      or just the three backticks when there is no newline. */
  function OpeningLength(html: string): (n: nat)
    ensures n <= |html|
  {
    if StartsWith(html, Backticks) then
      var nl := Find(html, "\n");
      if nl != -1 then nl + 1 else 3
    else 0
  }

  /** The opening fence runs through the first newline, or is the three
      backticks alone when the text holds no newline; text that does not
      start with three backticks has none. */
  lemma OpeningFence(html: string)
    ensures !StartsWith(html, Backticks) ==> OpeningLength(html) == 0
    ensures StartsWith(html, Backticks) && !Contains(html, "\n") ==> OpeningLength(html) == 3
    ensures StartsWith(html, Backticks) && Contains(html, "\n") ==>
              var n := OpeningLength(html);
              3 < n && html[n - 1] == '\n' && forall k :: 0 <= k < n - 1 ==> html[k] != '\n'
  {
    if StartsWith(html, Backticks) && Contains(html, "\n") {
      var i := Find(html, "\n");
      assert html[i..i + 1] == "\n";
      assert html[i] == '\n';
      forall k | 0 <= k < i
        ensures html[k] != '\n'
      {
        assert !OccursAt(html, "\n", k);
        assert html[k..k + 1] == [html[k]];
      }
      assert html[..3] == Backticks;
      assert html[0] == '`' && html[1] == '`' && html[2] == '`';
    }
  }

  /** Length of the closing fence. */
  function ClosingLength(html: string): (n: nat)
    ensures n <= |html|
  {
    if EndsWith(html, Backticks) then 3 else 0
  }

  /** `html` without its fences, stripped. */
  function StripFences(html: string): (r: string)
    ensures IsStripped(r)
    ensures |r| <= |html|
  {
    var lo := OpeningLength(html);
    var hi := |html| - ClosingLength(html[lo..]);
    Strip(html[lo..hi])
  }

  /** The cleaned text is a contiguous piece of the generator's text. */
  lemma StripFencesIsPiece(html: string)
    ensures Contains(html, StripFences(html))
  {
    var lo := OpeningLength(html);
    var hi := |html| - ClosingLength(html[lo..]);
    assert StripFences(html) == Strip(html[lo..hi]);
    StripSliceIsPiece(html, lo, hi);
  }

  /** Stripping a slice of `s` leaves a piece of `s`. */
  lemma StripSliceIsPiece(s: string, lo: nat, hi: nat)
    requires lo <= hi <= |s|
    ensures Contains(s, Strip(s[lo..hi]))
  {
    var b := s[lo..hi];
    var r := Strip(b);
    StripTrims(b);
    var k :| TrimsAt(b, r, k);
    PieceOfSlice(s, lo, hi, r, k);
  }

  /** A piece of a slice of `s` is a piece of `s`. */
  lemma PieceOfSlice(s: string, lo: nat, hi: nat, r: string, k: nat)
    requires lo <= hi <= |s| && k + |r| <= hi - lo && s[lo..hi][k..k + |r|] == r
    ensures Contains(s, r)
  {
    SliceOfSlice(s, lo, hi, k, k + |r|);
    OccursContains(s, r, lo + k);
  }

  lemma SliceOfSlice(s: string, i: nat, j: nat, k: nat, l: nat)
    requires i <= j <= |s| && k <= l <= j - i
    ensures s[i..j][k..l] == s[i + k..i + l]
  {
    assert forall m :: 0 <= m < l - k ==> s[i..j][k..l][m] == s[i + k + m];
  }

  /** Text that neither opens nor closes with a fence is only stripped. */
  lemma UnfencedOnlyStripped(html: string)
    requires !StartsWith(html, Backticks) && !EndsWith(html, Backticks)
    ensures StripFences(html) == Strip(html)
  {
    assert OpeningLength(html) == 0;
    assert html[0..] == html;
    assert ClosingLength(html) == 0;
    assert html[0..|html|] == html;
  }

  /** A fenced block whose opening line is three backticks and a language
      tag gives back its stripped body. */
  lemma {:induction false} FencedBlock(tag: string, body: string)
    requires forall k :: 0 <= k < |tag| ==> tag[k] != '\n'
    ensures StripFences(Backticks + tag + "\n" + body + Backticks) == Strip(body)
  {
    var html := Backticks + tag + "\n" + body + Backticks;
    var p := Backticks + tag;
    assert html == p + "\n" + (body + Backticks);
    assert StartsWith(html, Backticks) by {
      assert html[..3] == Backticks;
    }
    FindChar(p, '\n', body + Backticks);
    assert OpeningLength(html) == |p| + 1;
    assert html[|p| + 1..] == body + Backticks;
    assert (body + Backticks)[|body|..] == Backticks;
    assert html[|p| + 1..|html| - 3] == body;
  }

  /** The generator wraps an `<h1>` in an `html` fence: the stored article is
      exactly the heading. */
  lemma HtmlFenceExample(raw: string)
    requires raw == "```html\n<h1>X</h1>\n```"
    ensures StripFences(raw) == "<h1>X</h1>"
  {
    var body := "<h1>X</h1>\n";
    LiteralIsFencedBlock(raw);
    FencedBlock("html", body);
    StripHeading(body);
  }

  lemma LiteralIsFencedBlock(raw: string)
    requires raw == "```html\n<h1>X</h1>\n```"
    ensures raw == Backticks + "html" + "\n" + "<h1>X</h1>\n" + Backticks
  {
    var parts := Backticks + "html" + "\n" + "<h1>X</h1>\n" + Backticks;
    assert |raw| == |parts|;
    forall k | 0 <= k < |raw|
      ensures raw[k] == parts[k]
    {
    }
  }

  lemma StripHeading(body: string)
    requires body == "<h1>X</h1>\n"
    ensures Strip(body) == "<h1>X</h1>"
  {
    var h := body[..|body| - 1];
    assert !IsSpace(body[0]) && IsSpace(body[|body| - 1]);
    assert h == "<h1>X</h1>";
    assert !IsSpace(h[0]) && !IsSpace(h[|h| - 1]);
  }
}
