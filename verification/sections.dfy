/**
 Best-effort parsing of the generator's structured answer in
 `sauvegarder_et_index`: a meta description after `[DESCRIPTION]`, keywords
 after `[KEYWORDS]` and the article body after `[BODY]`, with defaults built
 from the topic. The source runs the lookups inside `try/except: pass`, so a
 missing segment stops the parse with the fields assigned so far kept.
 */
module Sections {
  import opened Text

  const DescriptionMarker: string := "[DESCRIPTION]"
  const KeywordsMarker: string := "[KEYWORDS]"
  const BodyMarker: string := "[BODY]"

  /** The three fields that fill the article page. */
  datatype Article = Article(description: string, keywords: string, body: string)

  /** The fields before any parsing: a templated description and keyword
      list built from the topic, and the whole answer as the body. */
  function Defaults(topic: string, response: string): Article {
    Article("D\U{e9}couvrez notre article sur " + topic,
            topic + ", actualit\U{e9}s, tendances",
            response)
  }

  /** The parse, one assignment at a time. `split("[DESCRIPTION]")[1]` cannot
      fail once the marker is known to occur; each later `[1]` can, and then
      the fields assigned before it keep their new values. */
  function ParseSections(topic: string, response: string): (a: Article)
    ensures !Contains(response, DescriptionMarker) || !Contains(response, BodyMarker)
            ==> a == Defaults(topic, response)
    ensures a.description == Defaults(topic, response).description || IsStripped(a.description)
    ensures a.keywords == Defaults(topic, response).keywords || IsStripped(a.keywords)
    ensures a.body == response || IsStripped(a.body)
  {
    var a := Defaults(topic, response);
    if Contains(response, DescriptionMarker) && Contains(response, BodyMarker) then
      var parts := Split(Split(response, DescriptionMarker)[1], KeywordsMarker);
      var a := a.(description := Strip(parts[0]));
      if |parts| < 2 then a
      else
        var parts := Split(parts[1], BodyMarker);
        var a := a.(keywords := Strip(parts[0]));
        if |parts| < 2 then a
        else a.(body := Strip(parts[1]))
    else a
  }

  /** None of the three markers occurs in `s`. */
  predicate NoMarker(s: string) {
    !Contains(s, DescriptionMarker) && !Contains(s, KeywordsMarker) && !Contains(s, BodyMarker)
  }

  /** The markers open with `[` and differ in their second character, so no
      occurrence of one can overlap another. */
  lemma MarkersBracketed()
    ensures Bracketed(DescriptionMarker) && Bracketed(KeywordsMarker) && Bracketed(BodyMarker)
    ensures DescriptionMarker[1] != KeywordsMarker[1]
    ensures DescriptionMarker[1] != BodyMarker[1]
    ensures KeywordsMarker[1] != BodyMarker[1]
  {
  }

  /** `x + n + y` holds none of the markers other than `n` when `x` and `y`
      hold no marker. */
  lemma NoOtherMarker(x: string, n: string, y: string, m: string)
    requires n == DescriptionMarker || n == KeywordsMarker || n == BodyMarker
    requires m == DescriptionMarker || m == KeywordsMarker || m == BodyMarker
    requires m != n
    requires NoMarker(x) && NoMarker(y)
    ensures !Contains(x + n + y, m)
  {
    MarkersBracketed();
    NotContainsAround(x, n, y, m);
  }

  /** Splitting `a + m + b` at a marker `m` that neither `a` nor `b` holds
      gives exactly `a` and `b`. */
  lemma SplitOnce(a: string, m: string, b: string)
    requires m == DescriptionMarker || m == KeywordsMarker || m == BodyMarker
    requires !Contains(a, m) && !Contains(b, m)
    ensures Split(a + m + b, m) == [a, b]
  {
    MarkersBracketed();
    SplitAfterPrefix(a, m, b);
    SplitAbsent(b, m);
  }

  /** The answer the prompt asks for: each marker once, in order. The fields
      are the stripped texts between them. */
  lemma {:induction false} WellFormedAnswer(topic: string, pre: string, d: string, k: string, b: string)
    requires !Contains(pre, DescriptionMarker)
    requires NoMarker(d) && NoMarker(k) && NoMarker(b)
    ensures ParseSections(topic, pre + DescriptionMarker + d + KeywordsMarker + k + BodyMarker + b)
         == Article(Strip(d), Strip(k), Strip(b))
  {
    var D, K, B := DescriptionMarker, KeywordsMarker, BodyMarker;
    var kb := k + B + b;
    var rest := d + K + kb;
    var response := pre + D + d + K + k + B + b;
    assert response == pre + D + rest;
    assert response == pre + D + d + K + k + B + b;
    ContainsMiddle(pre, D, rest);
    ContainsMiddle(pre + D + d + K + k, B, b);
    NoOtherMarker(k, B, b, D);
    NoOtherMarker(k, B, b, K);
    MarkersBracketed();
    NotContainsAround(d, K, kb, D);
    SplitOnce(pre, D, rest);
    SplitOnce(d, K, kb);
    SplitOnce(k, B, b);
  }

  /** Without `[KEYWORDS]` the description is still overwritten, with
      everything after `[DESCRIPTION]`, the body section included; keywords
      and body keep their defaults. */
  lemma {:induction false} MissingKeywords(topic: string, pre: string, d: string, b: string)
    requires !Contains(pre, DescriptionMarker)
    requires NoMarker(d) && NoMarker(b)
    ensures
      var response := pre + DescriptionMarker + d + BodyMarker + b;
      ParseSections(topic, response)
        == Defaults(topic, response).(description := Strip(d + BodyMarker + b))
  {
    var D, K, B := DescriptionMarker, KeywordsMarker, BodyMarker;
    var rest := d + B + b;
    var response := pre + D + d + B + b;
    assert response == pre + D + rest;
    ContainsMiddle(pre, D, rest);
    ContainsMiddle(pre + D + d, B, b);
    NoOtherMarker(d, B, b, D);
    NoOtherMarker(d, B, b, K);
    SplitOnce(pre, D, rest);
    SplitAbsent(rest, K);
    ParseWithoutKeywords(topic, response, pre, rest);
  }

  /** The parse when `[DESCRIPTION]` splits the answer in two and the part
      after it holds no `[KEYWORDS]`. */
  lemma ParseWithoutKeywords(topic: string, response: string, pre: string, rest: string)
    requires Contains(response, DescriptionMarker) && Contains(response, BodyMarker)
    requires Split(response, DescriptionMarker) == [pre, rest]
    requires Split(rest, KeywordsMarker) == [rest]
    ensures ParseSections(topic, response)
         == Defaults(topic, response).(description := Strip(rest))
  {
  }

  lemma ResponseHasBody(pre: string, m: string, rest: string)
    requires Contains(pre, BodyMarker)
    ensures Contains(pre + m + rest, BodyMarker)
  {
    assert pre + m + rest == pre + (m + rest);
    ContainsExtend(pre, m + rest, BodyMarker);
  }

  /** When the only `[BODY]` comes before `[DESCRIPTION]`, description and
      keywords are parsed and the body stays the whole answer. */
  lemma {:induction false} BodyBeforeDescription(topic: string, pre: string, d: string, k: string)
    requires !Contains(pre, DescriptionMarker) && Contains(pre, BodyMarker)
    requires NoMarker(d) && NoMarker(k)
    ensures
      var response := pre + DescriptionMarker + d + KeywordsMarker + k;
      ParseSections(topic, response)
        == Defaults(topic, response).(description := Strip(d), keywords := Strip(k))
  {
    var D, K, B := DescriptionMarker, KeywordsMarker, BodyMarker;
    var rest := d + K + k;
    var response := pre + D + d + K + k;
    assert response == pre + D + rest;
    ContainsMiddle(pre, D, rest);
    ResponseHasBody(pre, D, rest);
    NoOtherMarker(d, K, k, D);
    SplitOnce(pre, D, rest);
    SplitOnce(d, K, k);
    SplitAbsent(k, B);
  }
}
