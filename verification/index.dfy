/**
 The home page's article list (`generer_index`): one card per article file,
 in the order the files are listed, or a placeholder when there is none. The
 page template around the list is static text and is not modelled.
 */
module Index {
  import opened Text
  import opened Site

  /** A listing entry: the link target and the displayed title. */
  datatype Card = Card(href: string, title: string)

  /** The list part of the page: the cards, or the "no articles" placeholder. */
  datatype Listing = Cards(cards: seq<Card>) | NoArticles

  /** Pages of the site that are not articles. */
  const FixedPages: seq<string> := ["faq.html", "politique-de-confidentialite.html", "index.html"]

  /** Prefix of an article's path, seen from the site root. */
  const SiteFolder: string := ArticleFolder + "/"

  /** Links point into the article folder when the index is written at the
      site root. */
  function LinkPrefix(folder: string): string {
    if folder == "." then SiteFolder else ""
  }

  /** Title shown for an article file: every `.html` removed, underscores
      turned into spaces, then title-cased. */
  function DisplayTitle(name: string): string {
    Title(Replace(Replace(name, HtmlSuffix, ""), "_", " "))
  }

  /** The names the index lists, in order: those that are not fixed pages. */
  function Articles(names: seq<string>): (r: seq<string>)
    ensures |r| <= |names|
    ensures forall f :: f in r <==> f in names && f !in FixedPages
  {
    if |names| == 0 then []
    else (if names[0] in FixedPages then [] else [names[0]]) + Articles(names[1..])
  }

  /** The loop of `generer_index` over the file names. */
  function CardsFor(folder: string, names: seq<string>): seq<Card> {
    if |names| == 0 then []
    else if names[0] in FixedPages then CardsFor(folder, names[1..])
    else [Card(LinkPrefix(folder) + names[0], DisplayTitle(names[0]))] + CardsFor(folder, names[1..])
  }

  /** The list part of the index page. */
  function BuildIndex(folder: string, names: seq<string>): (l: Listing)
    ensures l.NoArticles? <==> Articles(names) == []
    ensures l.Cards? ==> |l.cards| == |Articles(names)|
  {
    CardsMatchArticles(folder, names);
    var cards := CardsFor(folder, names);
    if |cards| == 0 then NoArticles else Cards(cards)
  }

  /** There is one card per listed article, in the same order; the card links
      to the file, behind the folder prefix, and shows its display title. */
  lemma {:induction false} CardsMatchArticles(folder: string, names: seq<string>)
    ensures |CardsFor(folder, names)| == |Articles(names)|
    ensures forall i :: 0 <= i < |Articles(names)| ==>
              CardsFor(folder, names)[i]
              == Card(LinkPrefix(folder) + Articles(names)[i], DisplayTitle(Articles(names)[i]))
    decreases |names|
  {
    if |names| > 0 {
      CardsMatchArticles(folder, names[1..]);
      CardsMatchStep(folder, names);
    }
  }

  /** The first name adds its card in front exactly when it adds its
      article in front. */
  lemma CardsMatchStep(folder: string, names: seq<string>)
    requires |names| > 0
    requires |CardsFor(folder, names[1..])| == |Articles(names[1..])|
    requires forall i :: 0 <= i < |Articles(names[1..])| ==>
               CardsFor(folder, names[1..])[i]
               == Card(LinkPrefix(folder) + Articles(names[1..])[i], DisplayTitle(Articles(names[1..])[i]))
    ensures |CardsFor(folder, names)| == |Articles(names)|
    ensures forall i :: 0 <= i < |Articles(names)| ==>
              CardsFor(folder, names)[i]
              == Card(LinkPrefix(folder) + Articles(names)[i], DisplayTitle(Articles(names)[i]))
  {
    var a := Articles(names[1..]);
    var c := CardsFor(folder, names[1..]);
    if names[0] !in FixedPages {
      assert Articles(names) == [names[0]] + a;
      assert CardsFor(folder, names) == [Card(LinkPrefix(folder) + names[0], DisplayTitle(names[0]))] + c;
    } else {
      assert Articles(names) == a;
    }
  }

  /** Listing two lists one after the other gives their cards one after the
      other: the cards keep the input order and nothing is merged. */
  lemma {:induction false} CardsForAppend(folder: string, xs: seq<string>, ys: seq<string>)
    ensures CardsFor(folder, xs + ys) == CardsFor(folder, xs) + CardsFor(folder, ys)
    decreases |xs|
  {
    if |xs| == 0 {
      assert xs + ys == ys;
    } else {
      assert (xs + ys)[1..] == xs[1..] + ys;
      CardsForAppend(folder, xs[1..], ys);
    }
  }

  /** The listed names that end in `.html`, in listing order. */
  function HtmlNames(listing: seq<string>): (r: seq<string>)
    ensures forall f :: f in r <==> f in listing && EndsWith(f, HtmlSuffix)
  {
    if |listing| == 0 then []
    else (if EndsWith(listing[0], HtmlSuffix) then [listing[0]] else []) + HtmlNames(listing[1..])
  }

  /** A display title holds no underscore. */
  lemma DisplayTitleHasNoUnderscore(name: string)
    ensures forall k :: 0 <= k < |DisplayTitle(name)| ==> DisplayTitle(name)[k] != '_'
  {
    var spaced := Replace(Replace(name, HtmlSuffix, ""), "_", " ");
    ReplaceChar(Replace(name, HtmlSuffix, ""), '_', ' ');
    TitleKeepsUncased(spaced, false);
  }

  /** `title()` leaves every uncased character where it is. */
  lemma {:induction false} TitleKeepsUncased(s: string, prevCased: bool)
    ensures forall k :: 0 <= k < |s| && !IsCased(s[k]) ==> TitleFrom(s, prevCased)[k] == s[k]
    ensures forall k :: 0 <= k < |s| && IsCased(s[k]) ==> IsCased(TitleFrom(s, prevCased)[k])
    decreases |s|
  {
    if |s| > 0 {
      TitleKeepsUncased(s[1..], IsCased(s[0]));
      var r := TitleFrom(s, prevCased);
      assert r[1..] == TitleFrom(s[1..], IsCased(s[0]));
      forall k | 1 <= k < |s|
        ensures r[k] == r[1..][k - 1] && s[k] == s[1..][k - 1]
      {
      }
    }
  }

  /** Two plain article files give two cards titled by their capitalised
      stems, linked into the article folder from the site root. */
  lemma TwoArticlesExample()
    ensures BuildIndex(".", ["a.html", "b.html"])
         == Cards([Card("mon_site_news/a.html", "A"), Card("mon_site_news/b.html", "B")])
  {
    TwoArticles("a.html", 'a', "mon_site_news/a.html", "A", "b.html", 'b', "mon_site_news/b.html", "B");
  }

  /** The cards of two one-letter article files `x.html` and `y.html`, in
      listing order. */
  lemma TwoArticles(nx: string, x: char, hx: string, tx: string, ny: string, y: char, hy: string, ty: string)
    requires 'a' <= x <= 'z' && nx == [x] + HtmlSuffix && hx == SiteFolder + nx && tx == [UpperChar(x)]
    requires 'a' <= y <= 'z' && ny == [y] + HtmlSuffix && hy == SiteFolder + ny && ty == [UpperChar(y)]
    ensures BuildIndex(".", [nx, ny]) == Cards([Card(hx, tx), Card(hy, ty)])
  {
    OneArticle(nx, x, hx, tx);
    OneArticle(ny, y, hy, ty);
    assert [nx, ny] == [nx] + [ny];
    CardsForAppend(".", [nx], [ny]);
  }

  /** The card of a lone one-letter article file `x.html`. */
  lemma OneArticle(name: string, c: char, href: string, title: string)
    requires 'a' <= c <= 'z' && name == [c] + HtmlSuffix
    requires href == SiteFolder + name && title == [UpperChar(c)]
    ensures CardsFor(".", [name]) == [Card(href, title)]
  {
    StemTitle(name, c);
    assert name !in FixedPages by {
      assert |name| == 6;
    }
    assert [name][1..] == [];
  }

  /** The title of a one-letter article file `x.html`. */
  lemma StemTitle(name: string, c: char)
    requires 'a' <= c <= 'z' && name == [c] + HtmlSuffix
    ensures DisplayTitle(name) == [UpperChar(c)]
  {
    assert name[1..1 + |HtmlSuffix|] == HtmlSuffix;
    assert OccursAt(name, HtmlSuffix, 1);
    assert name[0..|HtmlSuffix|][0] == c != '.';
    assert !OccursAt(name, HtmlSuffix, 0);
    assert Find(name, HtmlSuffix) == 1;
    assert name[2..] == "html";
    assert Find("html", HtmlSuffix) == -1;
    assert Replace(name, HtmlSuffix, "") == [c];
    assert [c][0..1] == [c] != "_";
    assert !OccursAt([c], "_", 0);
    assert Find([c], "_") == -1;
    assert Replace([c], "_", " ") == [c];
  }

  /** No article at all gives the placeholder. */
  lemma {:induction false} EmptyIndexIsPlaceholder(folder: string, names: seq<string>)
    requires forall f :: f in names ==> f in FixedPages
    ensures BuildIndex(folder, names) == NoArticles
    decreases |names|
  {
    if |names| > 0 {
      assert names[0] in names;
      assert forall f :: f in names[1..] ==> f in names;
      EmptyIndexIsPlaceholder(folder, names[1..]);
    }
  }
}
