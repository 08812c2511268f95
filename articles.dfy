/** The DigitalOcean articles table: every article record is normalised (its
    category coerced into a fixed list, its text fields trimmed), and the table
    shows the records of the selected category that have a title and a link,
    ordered by title. */
module DoArticles {
  import opened Optional
  import opened Text

  /** The categories the table offers, in the order of the drop-down. */
  const Categories: seq<string> := ["Foundations", "Listicles", "Versus (vs) articles", "Misc"]

  /** Where every unknown or missing category ends up. */
  const Misc: string := "Misc"

  /** What the description column shows for an article without a description.
      The source file holds an em dash whose UTF-8 bytes were read as
      Windows-1252, which gives these three characters. */
  const Dash: string := "\U{00E2}\U{20AC}\U{201D}"

  /** An article as the data file holds it: each of the four fields the table
      uses may be absent; any other fields are carried along untouched. */
  datatype RawArticle = RawArticle(
    category: Option<string>,
    title: Option<string>,
    description: Option<string>,
    url: Option<string>,
    others: map<string, string>)

  /** An article after normalisation: every field the table uses is a string. */
  datatype Article = Article(
    category: string,
    title: string,
    description: string,
    url: string,
    others: map<string, string>)

  /** The trimmed category if it is one of the listed ones, "Misc" otherwise. */
  function NormalizeCategory(cat: Option<string>): (r: string)
    ensures r in Categories
    ensures Trim(OrEmpty(cat)) in Categories ==> r == Trim(OrEmpty(cat))
    ensures Trim(OrEmpty(cat)) !in Categories ==> r == Misc
  {
    var c := Trim(OrEmpty(cat));
    if c in Categories then c else Misc
  }

  /** A missing category is "Misc". */
  lemma MissingCategoryIsMisc(cat: Option<string>)
    requires cat.None?
    ensures NormalizeCategory(cat) == Misc
  {
    assert Trim(OrEmpty(cat)) == [];
  }

  /** None of the listed category names has white space at either end. */
  lemma CategoriesAreTrimmed(c: string)
    requires c in Categories
    ensures Trim(c) == c
  {
    TrimmedIsFixed(c);
  }

  /** Normalising a category that is already normalised changes nothing. */
  lemma NormalizeCategoryIdempotent(cat: Option<string>)
    ensures NormalizeCategory(Some(NormalizeCategory(cat))) == NormalizeCategory(cat)
  {
    CategoriesAreTrimmed(NormalizeCategory(cat));
  }

  /** `(v || "").trim()`: a missing text field reads as the empty string, a
      present one loses its leading and trailing white space. */
  function NormalizeText(v: Option<string>): (r: string)
    ensures IsTrimmed(r)
    ensures v.None? ==> r == ""
    ensures v.Some? ==> r == Trim(v.value) && |r| <= |v.value|
  {
    Trim(OrEmpty(v))
  }

  /** One record of the normalised list: category coerced, text fields
      normalised, other fields kept. */
  function Normalize(a: RawArticle): (r: Article)
    ensures r.category in Categories
    ensures r.category == NormalizeCategory(a.category)
    ensures r.title == NormalizeText(a.title)
    ensures r.description == NormalizeText(a.description)
    ensures r.url == NormalizeText(a.url)
    ensures r.others == a.others
  {
    Article(
      NormalizeCategory(a.category),
      NormalizeText(a.title),
      NormalizeText(a.description),
      NormalizeText(a.url),
      a.others)
  }

  /** The normalised list: one record per article, in the same order. */
  function NormalizeAll(raw: seq<RawArticle>): (r: seq<Article>)
    ensures |r| == |raw|
    ensures forall i :: 0 <= i < |raw| ==> r[i] == Normalize(raw[i])
  {
    seq(|raw|, i requires 0 <= i < |raw| => Normalize(raw[i]))
  }

  /** Normalising an already normalised record changes none of its fields. */
  lemma NormalizeIdempotent(a: RawArticle)
    ensures var n := Normalize(a);
      Normalize(RawArticle(Some(n.category), Some(n.title), Some(n.description), Some(n.url), n.others)) == n
  {
    var n := Normalize(a);
    NormalizeCategoryIdempotent(a.category);
    TrimmedIsFixed(n.title);
    TrimmedIsFixed(n.description);
    TrimmedIsFixed(n.url);
  }

  /** The filter predicate of the table: the selected category, a title and a link. */
  predicate Shown(a: Article, selected: string)
  {
    a.category == selected && a.title != "" && a.url != ""
  }

  /** The records that pass the filter. */
  function FilterShown(s: seq<Article>, selected: string): (r: seq<Article>)
    ensures |r| <= |s|
    ensures forall i :: 0 <= i < |r| ==> Shown(r[i], selected)
    ensures forall a :: multiset(r)[a] == if Shown(a, selected) then multiset(s)[a] else 0
  {
    if s == [] then []
    else
      assert s == [s[0]] + s[1..];
      (if Shown(s[0], selected) then [s[0]] else []) + FilterShown(s[1..], selected)
  }

  /** The filter keeps records in their input order: filtering a
      concatenation is concatenating the filtered parts. */
  lemma {:induction false} FilterShownAppend(s: seq<Article>, t: seq<Article>, selected: string)
    ensures FilterShown(s + t, selected) == FilterShown(s, selected) + FilterShown(t, selected)
  {
    if s == [] {
      assert s + t == t;
    } else {
      var st := s + t;
      assert st[0] == s[0] && st[1..] == s[1..] + t;
      var head := if Shown(s[0], selected) then [s[0]] else [];
      FilterShownUnfold(st, selected);
      FilterShownUnfold(s, selected);
      FilterShownAppend(s[1..], t, selected);
      ConcatAssociative(head, FilterShown(s[1..], selected), FilterShown(t, selected));
    }
  }

  /** Concatenation of record lists is associative. */
  lemma ConcatAssociative(x: seq<Article>, y: seq<Article>, z: seq<Article>)
    ensures x + (y + z) == (x + y) + z
  {
  }

  /** One step of the filter: the first record, if it passes, then the
      filtered rest. */
  lemma FilterShownUnfold(s: seq<Article>, selected: string)
    requires s != []
    ensures FilterShown(s, selected) ==
      (if Shown(s[0], selected) then [s[0]] else []) + FilterShown(s[1..], selected)
  {
  }

  /** A single record is kept exactly when it passes the filter. */
  lemma FilterShownSingle(a: Article, selected: string)
    ensures FilterShown([a], selected) == if Shown(a, selected) then [a] else []
  {
    assert [a][1..] == [];
  }

  /** `cmp(x, y) <= 0` when title x may come before title y, as with
      `x.localeCompare(y)`: any two titles are comparable ... */
  ghost predicate Total(cmp: (string, string) -> int)
  {
    forall x, y :: cmp(x, y) <= 0 || cmp(y, x) <= 0
  }

  /** ... and the relation is transitive. */
  ghost predicate Transitive(cmp: (string, string) -> int)
  {
    forall x, y, z :: cmp(x, y) <= 0 && cmp(y, z) <= 0 ==> cmp(x, z) <= 0
  }

  /** Consecutive records are in title order. */
  ghost predicate TitleOrdered(cmp: (string, string) -> int, s: seq<Article>)
  {
    forall i :: 0 < i < |s| ==> cmp(s[i - 1].title, s[i].title) <= 0
  }

  /** Every record comes no later in title order than every record after it. */
  ghost predicate SortedByTitle(cmp: (string, string) -> int, s: seq<Article>)
  {
    forall i, j :: 0 <= i < j < |s| ==> cmp(s[i].title, s[j].title) <= 0
  }

  /** Dropping the first record keeps neighbours in title order. */
  lemma OrderedTail(cmp: (string, string) -> int, s: seq<Article>)
    requires s != [] && TitleOrdered(cmp, s)
    ensures TitleOrdered(cmp, s[1..])
  {
    forall i | 0 < i < |s| - 1 ensures cmp(s[1..][i - 1].title, s[1..][i].title) <= 0 {
      assert s[1..][i - 1] == s[i] && s[1..][i] == s[i + 1];
    }
  }

  /** A record that may precede the first one of a title-ordered list can be
      put in front of it. */
  lemma OrderedCons(cmp: (string, string) -> int, a: Article, s: seq<Article>)
    requires TitleOrdered(cmp, s)
    requires s == [] || cmp(a.title, s[0].title) <= 0
    ensures TitleOrdered(cmp, [a] + s)
  {
    forall i | 0 < i < |s| + 1 ensures cmp(([a] + s)[i - 1].title, ([a] + s)[i].title) <= 0 {
      if i > 1 {
        assert ([a] + s)[i - 1] == s[i - 2] && ([a] + s)[i] == s[i - 1];
      }
    }
  }

  /** Places `a` before the first record it may precede. */
  function InsertByTitle(cmp: (string, string) -> int, a: Article, s: seq<Article>): (r: seq<Article>)
    requires Total(cmp) && TitleOrdered(cmp, s)
    ensures |r| == |s| + 1
    ensures r[0] == a || (s != [] && r[0] == s[0])
    ensures multiset(r) == multiset(s) + multiset{a}
    ensures exists k :: 0 <= k <= |s| && r == s[..k] + [a] + s[k..]
    ensures TitleOrdered(cmp, r)
  {
    if s == [] || cmp(a.title, s[0].title) <= 0 then
      OrderedCons(cmp, a, s);
      InsertAtFront(a, s);
      [a] + s
    else
      assert s == [s[0]] + s[1..];
      OrderedTail(cmp, s);
      var t := InsertByTitle(cmp, a, s[1..]);
      assert cmp(s[0].title, t[0].title) <= 0;
      OrderedCons(cmp, s[0], t);
      var k :| 0 <= k <= |s| - 1 && t == s[1..][..k] + [a] + s[1..][k..];
      InsertAfterHead(a, s, t, k);
      [s[0]] + t
  }

  /** Putting a record in front is inserting it at position 0. */
  lemma InsertAtFront(a: Article, s: seq<Article>)
    ensures [a] + s == s[..0] + [a] + s[0..]
  {
    assert s[..0] == [] && s[0..] == s;
  }

  /** Inserting into the tail at position k is inserting into the whole list
      at position k + 1. */
  lemma InsertAfterHead(a: Article, s: seq<Article>, t: seq<Article>, k: nat)
    requires k < |s| && t == s[1..][..k] + [a] + s[1..][k..]
    ensures [s[0]] + t == s[..k + 1] + [a] + s[k + 1..]
  {
    assert s[..k + 1] == [s[0]] + s[1..][..k];
    assert s[k + 1..] == s[1..][k..];
  }

  /** The records ordered by title, records that compare equal keeping their
      relative order (as the stable array sort does). */
  function SortByTitle(cmp: (string, string) -> int, s: seq<Article>): (r: seq<Article>)
    requires Total(cmp)
    ensures multiset(r) == multiset(s)
    ensures TitleOrdered(cmp, r)
  {
    if s == [] then []
    else
      assert s == [s[0]] + s[1..];
      InsertByTitle(cmp, s[0], SortByTitle(cmp, s[1..]))
  }

  /** Title order between neighbours is title order between any two records. */
  lemma {:induction false} OrderedIsSorted(cmp: (string, string) -> int, s: seq<Article>)
    requires Transitive(cmp) && TitleOrdered(cmp, s)
    ensures SortedByTitle(cmp, s)
  {
    if |s| > 1 {
      OrderedIsSorted(cmp, s[1..]);
      forall j | 1 <= j < |s| ensures cmp(s[0].title, s[j].title) <= 0 {
        if j > 1 {
          assert s[1..][0] == s[1] && s[1..][j - 1] == s[j];
        }
      }
      forall i, j | 0 <= i < j < |s| ensures cmp(s[i].title, s[j].title) <= 0 {
        if i > 0 {
          assert s[1..][i - 1] == s[i] && s[1..][j - 1] == s[j];
        }
      }
    }
  }

  /** The table's rows for the selected category, given the data file's
      articles and the comparison standing for `localeCompare`. */
  function Displayed(raw: seq<RawArticle>, selected: string, cmp: (string, string) -> int): (r: seq<Article>)
    requires Total(cmp)
    ensures |r| <= |raw|
    ensures forall i :: 0 <= i < |r| ==> Shown(r[i], selected)
  {
    var f := FilterShown(NormalizeAll(raw), selected);
    FilterThenSort(NormalizeAll(raw), selected, cmp);
    assert |SortByTitle(cmp, f)| == |f| by {
      assert |multiset(SortByTitle(cmp, f))| == |multiset(f)|;
    }
    SortByTitle(cmp, f)
  }

  /** Every row has the selected category, a title and a link; each
      normalised record that passes the filter appears exactly as often as it
      occurs in the data, and nothing else appears; neighbouring rows are in
      title order. */
  lemma DisplayedRows(raw: seq<RawArticle>, selected: string, cmp: (string, string) -> int)
    requires Total(cmp)
    ensures var r := Displayed(raw, selected, cmp);
      && (forall i :: 0 <= i < |r| ==>
            r[i].category == selected && r[i].title != "" && r[i].url != "")
      && (forall a :: multiset(r)[a] ==
            if Shown(a, selected) then multiset(NormalizeAll(raw))[a] else 0)
      && TitleOrdered(cmp, r)
  {
    FilterThenSort(NormalizeAll(raw), selected, cmp);
  }

  /** Filtering then sorting keeps exactly the records that pass, with their
      multiplicities, in title order. */
  lemma FilterThenSort(s: seq<Article>, selected: string, cmp: (string, string) -> int)
    requires Total(cmp)
    ensures var r := SortByTitle(cmp, FilterShown(s, selected));
      && (forall i :: 0 <= i < |r| ==> Shown(r[i], selected))
      && (forall a :: multiset(r)[a] == if Shown(a, selected) then multiset(s)[a] else 0)
      && TitleOrdered(cmp, r)
  {
    var f := FilterShown(s, selected);
    var r := SortByTitle(cmp, f);
    forall i | 0 <= i < |r| ensures Shown(r[i], selected) {
      assert r[i] in multiset(r);
      assert r[i] in multiset(f);
    }
  }

  /** A record is a row exactly when it is a normalised record that passes
      the filter. */
  lemma DisplayedMembership(raw: seq<RawArticle>, selected: string, cmp: (string, string) -> int, a: Article)
    requires Total(cmp)
    ensures a in Displayed(raw, selected, cmp) <==> a in NormalizeAll(raw) && Shown(a, selected)
  {
    DisplayedRows(raw, selected, cmp);
    var r := Displayed(raw, selected, cmp);
    assert a in r <==> a in multiset(r);
    assert a in NormalizeAll(raw) <==> a in multiset(NormalizeAll(raw));
  }

  /** Any two rows of the table are in title order. */
  lemma DisplayedSorted(raw: seq<RawArticle>, selected: string, cmp: (string, string) -> int)
    requires Total(cmp) && Transitive(cmp)
    ensures SortedByTitle(cmp, Displayed(raw, selected, cmp))
  {
    OrderedIsSorted(cmp, Displayed(raw, selected, cmp));
  }

  /** A selection outside the category list shows nothing, because every
      normalised record has a listed category. */
  lemma UnlistedSelectionShowsNothing(raw: seq<RawArticle>, selected: string, cmp: (string, string) -> int)
    requires Total(cmp)
    requires selected !in Categories
    ensures Displayed(raw, selected, cmp) == []
  {
    var r := Displayed(raw, selected, cmp);
    forall a | a in r ensures a.category in Categories {
      DisplayedMembership(raw, selected, cmp, a);
    }
  }

  /** The description column: the description, or the dash when it is empty. */
  function DescriptionText(a: Article): (r: string)
    ensures r != ""
    ensures a.description != "" ==> r == a.description
    ensures a.description == "" ==> r == Dash
  {
    if a.description != "" then a.description else Dash
  }
}
