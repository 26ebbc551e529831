/**
 Publication of the trend terms (`sauvegarder_et_index`, first part): every
 term names an article file; a file already in the article folder is left
 alone, otherwise the generator is asked for the article and the file is
 written only when it answers with some text.

 The folder is the set of its file names. The generator is a function from
 a term to its raw answer, `None` standing for a failed call.
 */
module Publish {
  import opened Text
  import opened Fence
  import opened Sections
  import opened Site

  datatype Option<T> = None | Some(value: T)

  /** The raw text the generator answers for a term, or `None` when the call
      fails. */
  type Generator = string -> Option<string>

  /** A written article file: the page title and the parsed sections. */
  datatype Page = Page(title: string, article: Article)

  /** What a run leaves behind: the folder's file names, the pages written
      during the run by name, and the terms the generator was called with,
      in call order. */
  datatype Outcome = Outcome(files: set<string>, written: map<string, Page>, calls: seq<string>)

  /** File name of a term's article: lower case, spaces turned into
      underscores, `.html` appended. */
  function Slug(topic: string): (name: string)
    ensures |name| == |topic| + |HtmlSuffix|
    ensures EndsWith(name, HtmlSuffix)
    ensures forall k :: 0 <= k < |topic| ==>
              name[k] == (if topic[k] == ' ' then '_' else LowerChar(topic[k]))
  {
    var lowered := Lower(topic);
    LowerAt(topic);
    ReplaceChar(lowered, ' ', '_');
    var name := Replace(lowered, " ", "_") + HtmlSuffix;
    assert name[|name| - |HtmlSuffix|..] == HtmlSuffix;
    name
  }

  /** `generer_article`: the generator's answer without its code fences,
      stripped, or `None` when the call fails. */
  function Generate(gen: Generator, topic: string): (r: Option<string>)
    ensures r.None? <==> gen(topic).None?
  {
    match gen(topic)
    case None => None
    case Some(raw) => Some(StripFences(raw))
  }

  /** What `generer_article` returns is stripped and is a contiguous piece
      of the generator's raw answer. */
  lemma GenerateIsCleanPiece(gen: Generator, topic: string)
    requires gen(topic).Some?
    ensures IsStripped(Generate(gen, topic).value)
    ensures Contains(gen(topic).value, Generate(gen, topic).value)
  {
    StripFencesIsPiece(gen(topic).value);
  }

  /** The generator gives nothing usable: `if reponse:` is false for `None`
      and for the empty text. */
  predicate Fails(gen: Generator, topic: string) {
    var r := Generate(gen, topic);
    r.None? || r.value == ""
  }

  /** The page written for a term from the cleaned answer. */
  function PageOf(topic: string, response: string): Page {
    Page(Title(topic), ParseSections(topic, response))
  }

  /** One turn of the loop over the terms. */
  function PublishOne(files: set<string>, topic: string, gen: Generator): (o: Outcome)
    ensures o.calls == (if Slug(topic) in files then [] else [topic])
    ensures o.files == (if Slug(topic) in files || Fails(gen, topic) then files
                        else files + {Slug(topic)})
    ensures o.written.Keys == o.files - files
    ensures forall n :: n in o.written ==> o.written[n] == PageOf(topic, Generate(gen, topic).value)
  {
    var name := Slug(topic);
    if name in files then Outcome(files, map[], [])
    else
      match Generate(gen, topic)
      case None => Outcome(files, map[], [topic])
      case Some(html) =>
        if html == "" then Outcome(files, map[], [topic])
        else Outcome(files + {name}, map[name := PageOf(topic, html)], [topic])
  }

  /** The whole loop: the terms in order, each seeing the files the earlier
      ones wrote. Files are only ever added, and no file that was there
      before is written again. */
  function PublishAll(files: set<string>, topics: seq<string>, gen: Generator): (o: Outcome)
    ensures files <= o.files
    ensures o.files == files + o.written.Keys
    ensures files !! o.written.Keys
    decreases |topics|
  {
    if |topics| == 0 then Outcome(files, map[], [])
    else
      var step := PublishOne(files, topics[0], gen);
      var rest := PublishAll(step.files, topics[1..], gen);
      Outcome(rest.files, step.written + rest.written, step.calls + rest.calls)
  }

  /** The generator is called only for terms of the run whose file was
      missing when the run started. */
  lemma {:induction false} CallsOnlyForMissing(files: set<string>, topics: seq<string>, gen: Generator)
    ensures forall t :: t in PublishAll(files, topics, gen).calls ==> t in topics && Slug(t) !in files
    decreases |topics|
  {
    if |topics| > 0 {
      var step := PublishOne(files, topics[0], gen);
      CallsOnlyForMissing(step.files, topics[1..], gen);
      var o := PublishAll(files, topics, gen);
      assert o.calls == step.calls + PublishAll(step.files, topics[1..], gen).calls;
      forall t | t in o.calls
        ensures t in topics && Slug(t) !in files
      {
        if t in step.calls {
          assert t == topics[0];
        } else {
          assert t in topics[1..];
        }
      }
    }
  }

  /** Every page written belongs to a term of the run whose generator
      answer was usable, and holds that answer parsed. */
  lemma {:induction false} WrittenPages(files: set<string>, topics: seq<string>, gen: Generator)
    ensures forall n :: n in PublishAll(files, topics, gen).written ==>
              exists t :: t in topics && Slug(t) == n && !Fails(gen, t)
                          && PublishAll(files, topics, gen).written[n] == PageOf(t, Generate(gen, t).value)
    decreases |topics|
  {
    if |topics| > 0 {
      var step := PublishOne(files, topics[0], gen);
      var rest := PublishAll(step.files, topics[1..], gen);
      WrittenPages(step.files, topics[1..], gen);
      var o := PublishAll(files, topics, gen);
      assert o.written == step.written + rest.written;
      forall n | n in o.written
        ensures exists t :: t in topics && Slug(t) == n && !Fails(gen, t)
                            && o.written[n] == PageOf(t, Generate(gen, t).value)
      {
        if n in rest.written {
          var t :| t in topics[1..] && Slug(t) == n && !Fails(gen, t)
                   && rest.written[n] == PageOf(t, Generate(gen, t).value);
          assert t in topics;
        } else {
          assert n in step.written;
          assert topics[0] in topics;
        }
      }
    }
  }

  /** After a run every term has its file, unless its generator answer was
      unusable. */
  lemma {:induction false} Covered(files: set<string>, topics: seq<string>, gen: Generator)
    ensures forall t :: t in topics ==> Slug(t) in PublishAll(files, topics, gen).files || Fails(gen, t)
    decreases |topics|
  {
    if |topics| > 0 {
      var step := PublishOne(files, topics[0], gen);
      Covered(step.files, topics[1..], gen);
      forall t | t in topics
        ensures Slug(t) in PublishAll(files, topics, gen).files || Fails(gen, t)
      {
        if t != topics[0] {
          assert t in topics[1..];
        }
      }
    }
  }

  /** When every term already has its file or an unusable answer, the run
      adds no file. */
  lemma {:induction false} NothingNew(files: set<string>, topics: seq<string>, gen: Generator)
    requires forall t :: t in topics ==> Slug(t) in files || Fails(gen, t)
    ensures PublishAll(files, topics, gen).files == files
    ensures PublishAll(files, topics, gen).written == map[]
    decreases |topics|
  {
    if |topics| > 0 {
      assert topics[0] in topics;
      assert forall t :: t in topics[1..] ==> t in topics;
      NothingNew(files, topics[1..], gen);
      assert PublishOne(files, topics[0], gen).written == map[];
    }
  }

  /** When every term's file is already there, the run neither calls the
      generator nor writes anything. */
  lemma {:induction false} AllPresent(files: set<string>, topics: seq<string>, gen: Generator)
    requires forall t :: t in topics ==> Slug(t) in files
    ensures PublishAll(files, topics, gen) == Outcome(files, map[], [])
    decreases |topics|
  {
    if |topics| > 0 {
      assert topics[0] in topics;
      assert forall t :: t in topics[1..] ==> t in topics;
      AllPresent(files, topics[1..], gen);
      var none: map<string, Page> := map[];
      assert none + none == none;
    }
  }

  /** Running the same terms again with the same generator adds no file. */
  lemma Idempotent(files: set<string>, topics: seq<string>, gen: Generator)
    ensures PublishAll(PublishAll(files, topics, gen).files, topics, gen).files
         == PublishAll(files, topics, gen).files
  {
    Covered(files, topics, gen);
    NothingNew(PublishAll(files, topics, gen).files, topics, gen);
  }

  /** Terms that differ only in letter case share one file name, so once
      one of them has its article the others are skipped. */
  lemma SlugIgnoresCase(a: string, b: string)
    requires Lower(a) == Lower(b)
    ensures Slug(a) == Slug(b)
  {
  }

  /** The fold over one term is that term's turn. */
  lemma PublishSingle(files: set<string>, b: string, gen: Generator)
    ensures PublishAll(files, [b], gen) == PublishOne(files, b, gen)
  {
    var step := PublishOne(files, b, gen);
    assert [b][1..] == [];
    var none: map<string, Page> := map[];
    assert PublishAll(step.files, [], gen) == Outcome(step.files, none, []);
    assert step.written + none == step.written;
    assert step.calls + [] == step.calls;
  }

  /** The fold over two terms: the second turn sees the first one's files. */
  lemma PublishPair(files: set<string>, a: string, b: string, gen: Generator)
    ensures
      var first := PublishOne(files, a, gen);
      var second := PublishOne(first.files, b, gen);
      PublishAll(files, [a, b], gen)
        == Outcome(second.files, first.written + second.written, first.calls + second.calls)
  {
    var first := PublishOne(files, a, gen);
    assert [a, b][1..] == [b];
    PublishSingle(first.files, b, gen);
  }

  /** Of two terms with one file name that is missing, the first one whose
      answer has text gets the article and the other is not even asked for:
      when the first is answered, the generator is called once and only its
      page is written. */
  lemma FirstOfSameFileWins(files: set<string>, a: string, b: string, gen: Generator)
    requires Slug(a) == Slug(b) && Slug(a) !in files
    requires !Fails(gen, a)
    ensures PublishAll(files, [a, b], gen).calls == [a]
    ensures PublishAll(files, [a, b], gen).written == map[Slug(a) := PageOf(a, Generate(gen, a).value)]
  {
    PublishPair(files, a, b, gen);
    var first := PublishOne(files, a, gen);
    assert first.files == files + {Slug(a)};
    var second := PublishOne(first.files, b, gen);
    assert second.calls == [] && second.written == map[];
    assert first.written + second.written == first.written;
  }

  /** When the first of two terms with one missing file name gets no usable
      answer, both are asked for and the second one's answer is written. */
  lemma FailedFirstLeavesSecond(files: set<string>, a: string, b: string, gen: Generator)
    requires Slug(a) == Slug(b) && Slug(a) !in files
    requires Fails(gen, a) && !Fails(gen, b)
    ensures PublishAll(files, [a, b], gen).calls == [a, b]
    ensures PublishAll(files, [a, b], gen).written == map[Slug(b) := PageOf(b, Generate(gen, b).value)]
  {
    PublishPair(files, a, b, gen);
    var first := PublishOne(files, a, gen);
    assert first.files == files && first.calls == [a] && first.written == map[];
    var second := PublishOne(files, b, gen);
    assert second.calls == [b];
    assert first.written + second.written == second.written;
  }

  /** The file name of a two-word term. */
  lemma SlugExample(t: string)
    requires t == "Intelligence Artificielle"
    ensures Slug(t) == "intelligence_artificielle.html"
  {
    var n := "intelligence_artificielle.html";
    var name := Slug(t);
    assert |name| == |n|;
    forall k | 0 <= k < |t|
      ensures name[k] == n[k]
    {
    }
    assert name[|t|..] == HtmlSuffix;
    forall k | |t| <= k < |n|
      ensures name[k] == n[k]
    {
      assert name[k] == name[|t|..][k - |t|];
    }
  }

  /** Two new terms on an empty folder, with different file names: the
      first answered, the call for the second failing. Only the first
      term's file appears. */
  lemma {:induction false} TwoTerms(a: string, b: string, gen: Generator)
    requires Slug(a) != Slug(b)
    requires gen(b).None?
    requires gen(a).Some? && StripFences(gen(a).value) != ""
    ensures PublishAll({}, [a, b], gen).files == {Slug(a)}
  {
    var topics := [a, b];
    assert !Fails(gen, a);
    assert Fails(gen, b);
    var s1 := PublishOne({}, a, gen);
    assert s1.files == {Slug(a)};
    assert topics[1..] == [b];
    NothingNew({Slug(a)}, [b], gen);
    assert PublishAll({}, topics, gen).files == PublishAll(s1.files, topics[1..], gen).files;
  }

  /** The two trends "Intelligence Artificielle" and "Paris" on an empty
      folder, the generator answering only for the first. */
  lemma TwoTermsExample(gen: Generator, ia: string, paris: string)
    requires ia == "Intelligence Artificielle" && paris == "Paris"
    requires gen(paris).None?
    requires gen(ia).Some? && StripFences(gen(ia).value) != ""
    ensures PublishAll({}, [ia, paris], gen).files == {"intelligence_artificielle.html"}
  {
    assert |Slug(paris)| != |Slug(ia)|;
    TwoTerms(ia, paris, gen);
    SlugExample(ia);
  }
}
