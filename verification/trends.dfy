/**
 Trend-term extraction (`scraper_google_trends`, after the page is loaded):
 the page body arrives as a sequence of text lines, and a line is taken as a
 search term when the line after it shows a search volume such as `500 k+`
 or `1 M+`.

 The scan is stated in two layers. A `Row` records what the scan needs to
 know about one scanned line: its stripped text and whether it passes the
 tests together with the line after it. The scan over rows and its relation
 to de-duplication are proved once for any rows; `Rows` then ties them to
 the page lines.
 */
module Trends {
  import opened Text
  import opened Seqs

  /** Lines whose lower-cased text contains one of these are page chrome. */
  const Blacklist: seq<string> :=
    ["trends", "accueil", "explorer", "d\U{e9}marr\U{e9}e", "volume",
     "composition", "actif", "il y a", "heures", "france"]

  /** At most this many terms are returned. */
  const MaxTerms: nat := 10

  /** `any(w in s for w in words)`. */
  predicate ContainsAny(s: string, words: seq<string>)
    decreases |words|
  {
    |words| > 0 && (Contains(s, words[0]) || ContainsAny(s, words[1..]))
  }

  /** `any` holds exactly when some word occurs. */
  lemma {:induction false} ContainsAnyIff(s: string, words: seq<string>)
    ensures ContainsAny(s, words) <==> exists k :: 0 <= k < |words| && Contains(s, words[k])
    decreases |words|
  {
    if |words| > 0 {
      ContainsAnyIff(s, words[1..]);
      if exists k :: 0 <= k < |words| && Contains(s, words[k]) {
        var k :| 0 <= k < |words| && Contains(s, words[k]);
        if k > 0 {
          assert words[1..][k - 1] == words[k];
        }
      }
      if ContainsAny(s, words[1..]) {
        var k :| 0 <= k < |words| - 1 && Contains(s, words[1..][k]);
        assert words[k + 1] == words[1..][k];
      }
    }
  }

  predicate Blacklisted(lowered: string) {
    ContainsAny(lowered, Blacklist)
  }

  /** The stripped following line carries a volume marker. */
  predicate HasVolume(next: string) {
    Contains(next, "k+") || Contains(next, "M+")
  }

  /** `line`, followed by `next`, passes every test of the scan except the
      duplicate check: a volume on the next line, a stripped length strictly
      between 2 and 50, and no blacklisted word in its lower-case form. */
  predicate IsTermLine(line: string, next: string) {
    var l := Strip(line);
    HasVolume(Strip(next)) && 2 < |l| < 50 && !Blacklisted(Lower(l))
  }

  /** A test on a line and the line after it. */
  type LineTest = (string, string) -> bool

  /** Line `i`, other than the last, passes `q` and strips to `t`. */
  ghost predicate PassesAt(lines: seq<string>, q: LineTest, i: int, t: string) {
    0 <= i < |lines| - 1 && q(lines[i], lines[i + 1]) && Strip(lines[i]) == t
  }

  /** `t` is the stripped text of some line, other than the last, that
      passes the tests. */
  ghost predicate IsTermOf(lines: seq<string>, t: string) {
    exists i :: PassesAt(lines, IsTermLine, i, t)
  }

  /* ---------------------------------------------------------------------- */
  /* The scan over rows                                                      */
  /* ---------------------------------------------------------------------- */

  /** A scanned line: its stripped text and whether it passes the tests. */
  datatype Row = Row(text: string, passes: bool)

  /** The texts of the passing rows among the first `n`, in order and with
      repetitions. */
  function Passing(rows: seq<Row>, n: nat): seq<string>
    requires n <= |rows|
  {
    if n == 0 then []
    else Passing(rows, n - 1) + (if rows[n - 1].passes then [rows[n - 1].text] else [])
  }

  /** The passing texts are exactly the texts of the passing rows. */
  lemma {:induction false} PassingMembers(rows: seq<Row>, n: nat)
    requires n <= |rows|
    ensures forall t :: t in Passing(rows, n) ==>
              exists i :: 0 <= i < n && rows[i].passes && rows[i].text == t
    ensures forall i :: 0 <= i < n && rows[i].passes ==> rows[i].text in Passing(rows, n)
  {
    if n > 0 {
      PassingMembers(rows, n - 1);
      var prev := Passing(rows, n - 1);
      var add := if rows[n - 1].passes then [rows[n - 1].text] else [];
      assert Passing(rows, n) == prev + add;
      forall t | t in prev + add
        ensures exists i :: 0 <= i < n && rows[i].passes && rows[i].text == t
      {
        if t !in prev {
          assert rows[n - 1].passes && rows[n - 1].text == t;
        }
      }
      forall i | 0 <= i < n && rows[i].passes
        ensures rows[i].text in prev + add
      {
        if i < n - 1 {
          assert rows[i].text in prev;
        } else {
          assert rows[i].text in add;
        }
      }
    }
  }

  /** One turn of the scan on a row: its text is added when it passes and
      is not among the texts `found` so far. */
  function Keep(row: Row, found: seq<string>): seq<string> {
    if row.passes && row.text !in found then found + [row.text] else found
  }

  /** The texts kept after the first `n` rows. */
  function ScanRows(rows: seq<Row>, n: nat): seq<string>
    requires n <= |rows|
  {
    if n == 0 then [] else Keep(rows[n - 1], ScanRows(rows, n - 1))
  }

  /** The scan keeps each passing text once, at the first row that
      passes with it. */
  lemma {:induction false} ScanRowsIsDedup(rows: seq<Row>, n: nat)
    requires n <= |rows|
    ensures ScanRows(rows, n) == Dedup(Passing(rows, n))
  {
    if n > 0 {
      ScanRowsIsDedup(rows, n - 1);
      ScanRowsStep(rows, n);
    }
  }

  /** One more row keeps the scan equal to the de-duplicated passing
      texts. */
  lemma ScanRowsStep(rows: seq<Row>, n: nat)
    requires 0 < n <= |rows|
    requires ScanRows(rows, n - 1) == Dedup(Passing(rows, n - 1))
    ensures ScanRows(rows, n) == Dedup(Passing(rows, n))
  {
    var before := Passing(rows, n - 1);
    var row := rows[n - 1];
    if row.passes {
      assert Passing(rows, n) == before + [row.text];
      DedupSnoc(before, row.text);
    } else {
      assert Passing(rows, n) == before;
    }
  }

  /* ---------------------------------------------------------------------- */
  /* The page lines as rows                                                  */
  /* ---------------------------------------------------------------------- */

  /** Number of lines the loop scans: all but the last. */
  function Scanned(lines: seq<string>): (n: nat)
    ensures n == 0 || n < |lines|
    ensures |lines| >= 2 ==> n == |lines| - 1
  {
    if |lines| < 2 then 0 else |lines| - 1
  }

  /** Row `i` describes line `i` followed by line `i + 1`, under the test
      `q`. */
  function RowsWith(lines: seq<string>, q: LineTest): (rows: seq<Row>)
    ensures |rows| == Scanned(lines)
  {
    seq(Scanned(lines), i requires 0 <= i < Scanned(lines) =>
          Row(Strip(lines[i]), q(lines[i], lines[i + 1])))
  }

  lemma RowAt(lines: seq<string>, q: LineTest, i: nat)
    requires i < Scanned(lines)
    ensures RowsWith(lines, q)[i] == Row(Strip(lines[i]), q(lines[i], lines[i + 1]))
  {
  }

  /** Row `i` passes with text `t` exactly when line `i` passes `q` and
      strips to `t`. */
  lemma RowPasses(lines: seq<string>, q: LineTest, i: int, t: string)
    requires 0 <= i < Scanned(lines) || PassesAt(lines, q, i, t)
    ensures 0 <= i < Scanned(lines)
    ensures RowsWith(lines, q)[i].passes && RowsWith(lines, q)[i].text == t
            <==> PassesAt(lines, q, i, t)
  {
    RowAt(lines, q, i);
  }

  /** The scanned lines under the tests of the loop. */
  function Rows(lines: seq<string>): (rows: seq<Row>)
    ensures |rows| == Scanned(lines)
  {
    RowsWith(lines, IsTermLine)
  }

  /** The stripped texts of the qualifying lines, in line order and with
      repetitions. */
  function Candidates(lines: seq<string>): seq<string> {
    Passing(Rows(lines), Scanned(lines))
  }

  /** The passing texts of the rows under `q` are exactly the stripped lines
      that pass `q`. */
  lemma PassingWithMembers(lines: seq<string>, q: LineTest)
    ensures forall t :: t in Passing(RowsWith(lines, q), Scanned(lines))
                        <==> exists i :: PassesAt(lines, q, i, t)
  {
    PassingMembers(RowsWith(lines, q), Scanned(lines));
    PassingWithSound(lines, q);
    PassingWithComplete(lines, q);
  }

  lemma PassingWithSound(lines: seq<string>, q: LineTest)
    requires forall t :: t in Passing(RowsWith(lines, q), Scanned(lines)) ==>
               exists i :: 0 <= i < Scanned(lines) && RowsWith(lines, q)[i].passes
                           && RowsWith(lines, q)[i].text == t
    ensures forall t :: t in Passing(RowsWith(lines, q), Scanned(lines))
                        ==> exists i :: PassesAt(lines, q, i, t)
  {
    var rows := RowsWith(lines, q);
    forall t | t in Passing(rows, Scanned(lines))
      ensures exists i :: PassesAt(lines, q, i, t)
    {
      var i :| 0 <= i < Scanned(lines) && rows[i].passes && rows[i].text == t;
      RowPasses(lines, q, i, t);
    }
  }

  lemma PassingWithComplete(lines: seq<string>, q: LineTest)
    requires forall i :: 0 <= i < Scanned(lines) && RowsWith(lines, q)[i].passes
               ==> RowsWith(lines, q)[i].text in Passing(RowsWith(lines, q), Scanned(lines))
    ensures forall t :: (exists i :: PassesAt(lines, q, i, t))
                        ==> t in Passing(RowsWith(lines, q), Scanned(lines))
  {
    var rows := RowsWith(lines, q);
    forall t | exists i :: PassesAt(lines, q, i, t)
      ensures t in Passing(rows, Scanned(lines))
    {
      var i :| PassesAt(lines, q, i, t);
      RowPasses(lines, q, i, t);
    }
  }

  /** The candidates are exactly the stripped qualifying lines. */
  lemma CandidatesMembers(lines: seq<string>)
    ensures forall t :: t in Candidates(lines) <==> IsTermOf(lines, t)
  {
    PassingWithMembers(lines, IsTermLine);
  }

  /** The first `MaxTerms` elements, or all when there are fewer. */
  function Cut(d: seq<string>): (r: seq<string>)
    ensures |r| <= MaxTerms && |r| <= |d|
    ensures |r| < MaxTerms ==> r == d
    ensures |d| >= MaxTerms ==> |r| == MaxTerms
    ensures forall k :: 0 <= k < |r| ==> r[k] == d[k]
  {
    d[..if |d| < MaxTerms then |d| else MaxTerms]
  }

  /** The terms of a page: the distinct candidates in order of first
      appearance, cut to `MaxTerms`. */
  function Extract(lines: seq<string>): (terms: seq<string>)
    ensures |terms| <= MaxTerms
    ensures NoDup(terms)
    ensures |lines| < 2 ==> terms == []
  {
    var d := Dedup(Candidates(lines));
    DedupNoDup(Candidates(lines));
    PrefixNoDup(d, if |d| < MaxTerms then |d| else MaxTerms);
    Cut(d)
  }

  /** Every term comes from a qualifying line. */
  lemma ExtractSound(lines: seq<string>)
    ensures forall t :: t in Extract(lines) ==> IsTermOf(lines, t)
  {
    var c := Candidates(lines);
    DedupMembers(c);
    CandidatesMembers(lines);
    forall t | t in Extract(lines)
      ensures IsTermOf(lines, t)
    {
      assert t in Dedup(c);
    }
  }

  /** Every term is a stripped text of 3 to 49 characters whose lower-case
      form contains no blacklisted word, and the line after its source line
      shows a volume. */
  lemma TermShape(lines: seq<string>, t: string)
    requires IsTermOf(lines, t)
    ensures IsStripped(t) && 2 < |t| < 50
    ensures forall k :: 0 <= k < |Blacklist| ==> !Contains(Lower(t), Blacklist[k])
    ensures exists i :: 0 <= i < |lines| - 1 && Strip(lines[i]) == t && HasVolume(Strip(lines[i + 1]))
  {
    var i :| PassesAt(lines, IsTermLine, i, t);
    assert IsTermLine(lines[i], lines[i + 1]);
    assert !ContainsAny(Lower(t), Blacklist);
    ContainsAnyIff(Lower(t), Blacklist);
  }

  /** Cutting the de-duplicated sequence loses an element only when the
      cut is full of elements that first appear before it. */
  lemma CutKeeps(c: seq<string>, x: string)
    requires x in c
    ensures x !in Cut(Dedup(c)) ==>
              |Cut(Dedup(c))| == MaxTerms
              && forall t :: t in Cut(Dedup(c)) ==> t in c && FirstIndex(c, t) < FirstIndex(c, x)
  {
    DedupMembers(c);
    var d := Dedup(c);
    var r := Cut(d);
    if x !in r {
      DedupOrder(c);
      var j :| 0 <= j < |d| && d[j] == x;
      forall t | t in r
        ensures t in c && FirstIndex(c, t) < FirstIndex(c, x)
      {
        var k :| 0 <= k < |r| && r[k] == t;
        assert d[k] == t;
      }
    }
  }

  /** Nothing is lost below the cap: a qualifying line's text is among the
      terms, unless ten terms were kept and each of them qualified earlier
      on the page. */
  lemma ExtractComplete(lines: seq<string>, i: nat)
    requires i < |lines| - 1 && IsTermLine(lines[i], lines[i + 1])
    ensures Strip(lines[i]) in Candidates(lines)
    ensures Strip(lines[i]) !in Extract(lines) ==>
              |Extract(lines)| == MaxTerms
              && forall t :: t in Extract(lines) ==>
                   t in Candidates(lines)
                   && FirstIndex(Candidates(lines), t) < FirstIndex(Candidates(lines), Strip(lines[i]))
  {
    CandidatesMembers(lines);
    assert PassesAt(lines, IsTermLine, i, Strip(lines[i]));
    CutKeeps(Candidates(lines), Strip(lines[i]));
  }

  /** The terms keep the order in which they first qualify on the page. */
  lemma ExtractOrder(lines: seq<string>)
    ensures forall t :: t in Extract(lines) ==> t in Candidates(lines)
    ensures forall i, j :: 0 <= i < j < |Extract(lines)| ==>
              FirstIndex(Candidates(lines), Extract(lines)[i])
              < FirstIndex(Candidates(lines), Extract(lines)[j])
  {
    var c := Candidates(lines);
    DedupMembers(c);
    DedupOrder(c);
  }

  /* ---------------------------------------------------------------------- */
  /* The loop                                                                */
  /* ---------------------------------------------------------------------- */

  /** One turn of the loop, on line `i` and the line after it, with the
      tests in the order the loop makes them: the stripped line is appended
      to the terms `found` so far when the stripped next line shows a volume,
      its length is strictly between 2 and 50, it holds no blacklisted word
      and it is not among them yet. The turn is the scan's turn on row
      `i`. */
  method ScanTurn(lines: seq<string>, i: nat, found: seq<string>) returns (r: seq<string>)
    requires i < Scanned(lines)
    ensures r == Keep(Rows(lines)[i], found)
  {
    var ligne := Strip(lines[i]);
    var suivante := Strip(lines[i + 1]);
    r := found;
    if HasVolume(suivante) && 2 < |ligne| < 50 {
      if !Blacklisted(Lower(ligne)) {
        if ligne !in found {
          r := found + [ligne];
        }
      }
    }
    RowOfLine(lines, i);
  }

  /** Row `i` of the page holds line `i` stripped and whether it passes the
      tests. */
  lemma RowOfLine(lines: seq<string>, i: nat)
    requires i < Scanned(lines)
    ensures Rows(lines)[i] == Row(Strip(lines[i]), IsTermLine(lines[i], lines[i + 1]))
  {
    RowAt(lines, IsTermLine, i);
    assert IsTermLine(lines[i], lines[i + 1]) == (IsTermLine)(lines[i], lines[i + 1]);
  }

  /** The loop of `scraper_google_trends` over the page lines, before the
      cut: after `i` turns it holds the scan of the first `i` rows. */
  method ScanLines(lines: seq<string>) returns (found: seq<string>)
    ensures found == ScanRows(Rows(lines), Scanned(lines))
  {
    found := [];
    var i := 0;
    while i < |lines| - 1
      invariant i <= Scanned(lines)
      invariant found == ScanRows(Rows(lines), i)
    {
      found := ScanTurn(lines, i, found);
      i := i + 1;
    }
  }

  /** `scraper_google_trends` from the page lines on: the terms are
      `Extract`. */
  method ScrapeTerms(lines: seq<string>) returns (terms: seq<string>)
    ensures terms == Extract(lines)
  {
    var found := ScanLines(lines);
    ScanRowsIsDedup(Rows(lines), Scanned(lines));
    terms := Cut(found);
  }
}
