/**
 One run of the site update (`sauvegarder_et_index`): the trend terms are
 read off the page lines, every new term gets its article, and the home page
 lists the article files found in the folder afterwards.
 */
module Pipeline {
  import opened Text
  import opened Seqs
  import opened Site
  import opened Trends
  import opened Publish
  import opened Index

  /** A listing of the folder (`os.listdir`): every file once, in an order
      the model leaves open. */
  method ListFolder(files: set<string>) returns (listing: seq<string>)
    ensures forall f :: f in listing <==> f in files
    ensures NoDup(listing)
  {
    listing := [];
    var left := files;
    while left != {}
      invariant left <= files
      invariant forall f :: f in listing <==> f in files && f !in left
      invariant NoDup(listing)
      decreases |left|
    {
      var f :| f in left;
      listing := listing + [f];
      left := left - {f};
    }
  }

  /** The loop over the terms, one `PublishOne` per turn: it leaves the
      folder and the written pages that the fold `PublishAll` describes. */
  method PublishTerms(existing: set<string>, terms: seq<string>, gen: Generator)
    returns (files: set<string>, pages: map<string, Page>)
    ensures files == PublishAll(existing, terms, gen).files
    ensures pages == PublishAll(existing, terms, gen).written
  {
    ghost var whole := PublishAll(existing, terms, gen);
    files := existing;
    pages := map[];
    var i := 0;
    assert terms[0..] == terms;
    while i < |terms|
      invariant i <= |terms|
      invariant PublishAll(files, terms[i..], gen).files == whole.files
      invariant pages + PublishAll(files, terms[i..], gen).written == whole.written
    {
      var step := PublishOne(files, terms[i], gen);
      TurnKeepsFold(files, pages, terms, i, gen, whole);
      files := step.files;
      pages := pages + step.written;
      i := i + 1;
    }
    assert terms[i..] == [];
    var none: map<string, Page> := map[];
    assert PublishAll(files, [], gen) == Outcome(files, none, []);
    assert pages + none == pages;
  }

  /** One turn of the loop moves term `i` from the fold still to come into
      the state already reached. */
  lemma TurnKeepsFold(files: set<string>, pages: map<string, Page>, terms: seq<string>, i: nat,
                      gen: Generator, whole: Outcome)
    requires i < |terms|
    requires PublishAll(files, terms[i..], gen).files == whole.files
    requires pages + PublishAll(files, terms[i..], gen).written == whole.written
    ensures PublishAll(PublishOne(files, terms[i], gen).files, terms[i + 1..], gen).files == whole.files
    ensures pages + PublishOne(files, terms[i], gen).written
            + PublishAll(PublishOne(files, terms[i], gen).files, terms[i + 1..], gen).written == whole.written
  {
    var rest := terms[i..];
    assert rest[0] == terms[i] && rest[1..] == terms[i + 1..];
    var step := PublishOne(files, rest[0], gen);
    PublishAllCons(files, rest, gen);
    MapUnionAssoc(pages, step.written, PublishAll(step.files, rest[1..], gen).written);
  }

  /** One unfolding of the fold. */
  lemma PublishAllCons(files: set<string>, topics: seq<string>, gen: Generator)
    requires |topics| > 0
    ensures PublishAll(files, topics, gen).files
         == PublishAll(PublishOne(files, topics[0], gen).files, topics[1..], gen).files
    ensures PublishAll(files, topics, gen).written
         == PublishOne(files, topics[0], gen).written
            + PublishAll(PublishOne(files, topics[0], gen).files, topics[1..], gen).written
  {
  }

  lemma MapUnionAssoc<K, V>(a: map<K, V>, b: map<K, V>, c: map<K, V>)
    ensures a + (b + c) == (a + b) + c
  {
  }

  /** The whole run. The index lists exactly the article files of the folder
      after publication, each linked into the article folder. */
  method Run(lines: seq<string>, existing: set<string>, gen: Generator)
    returns (files: set<string>, pages: map<string, Page>, index: Listing)
    ensures files == PublishAll(existing, Extract(lines), gen).files
    ensures pages == PublishAll(existing, Extract(lines), gen).written
    ensures index.NoArticles? <==>
              forall f :: f in files && EndsWith(f, HtmlSuffix) ==> f in FixedPages
    ensures index.Cards? ==>
              forall c :: c in index.cards ==>
                exists f :: f in files && EndsWith(f, HtmlSuffix) && f !in FixedPages
                            && c == Card(SiteFolder + f, DisplayTitle(f))
    ensures index.Cards? ==>
              forall f :: f in files && EndsWith(f, HtmlSuffix) && f !in FixedPages ==>
                Card(SiteFolder + f, DisplayTitle(f)) in index.cards
  {
    var terms := ScrapeTerms(lines);
    files, pages := PublishTerms(existing, terms, gen);
    var listing := ListFolder(files);
    var names := HtmlNames(listing);
    index := BuildIndex(".", names);
    IndexOfNames(names);
  }

  /** The home page built at the site root over `names` shows a card for
      exactly the articles among them. */
  lemma IndexOfNames(names: seq<string>)
    ensures BuildIndex(".", names).NoArticles? <==> forall f :: f in names ==> f in FixedPages
    ensures BuildIndex(".", names).Cards? ==>
              forall c :: c in BuildIndex(".", names).cards ==>
                exists f :: f in names && f !in FixedPages && c == Card(SiteFolder + f, DisplayTitle(f))
    ensures BuildIndex(".", names).Cards? ==>
              forall f :: f in names && f !in FixedPages ==>
                Card(SiteFolder + f, DisplayTitle(f)) in BuildIndex(".", names).cards
  {
    var a := Articles(names);
    CardsMatchArticles(".", names);
    if forall f :: f in names ==> f in FixedPages {
      EmptyIndexIsPlaceholder(".", names);
    }
    var l := BuildIndex(".", names);
    if l.Cards? {
      forall c | c in l.cards
        ensures exists f :: f in names && f !in FixedPages && c == Card(SiteFolder + f, DisplayTitle(f))
      {
        var i :| 0 <= i < |l.cards| && l.cards[i] == c;
        assert a[i] in a;
      }
      forall f | f in names && f !in FixedPages
        ensures Card(SiteFolder + f, DisplayTitle(f)) in l.cards
      {
        assert f in a;
        var i :| 0 <= i < |a| && a[i] == f;
        assert l.cards[i] == Card(SiteFolder + f, DisplayTitle(f));
      }
    }
  }
}
