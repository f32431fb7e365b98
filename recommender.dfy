/** `content_based_recommendations`: look the product up by name, rank every
    catalog row by its similarity to it, drop the first ranked entry and keep
    the next `topN`, and project five display columns of those rows. The
    similarity matrix is an input: how it is computed is not modelled. */
module Recommender {
  import opened PythonSlice
  import opened Ranking

  /** One catalog row. `tags` is the text the similarity matrix is computed
      from; the ranking reads only the matrix. */
  datatype Product = Product(
    name: string, reviewCount: int, brand: string, imageUrl: string, rating: real, tags: string)

  /** One result row: the columns `Name, ReviewCount, Brand, ImageURL, Rating`. */
  datatype Details = Details(
    name: string, reviewCount: int, brand: string, imageUrl: string, rating: real)

  datatype Option<T> = None | Some(value: T)

  /** The five display columns of one catalog row; `tags` is not among them. */
  function DetailsOf(p: Product): (d: Details)
    ensures d.name == p.name && d.reviewCount == p.reviewCount && d.brand == p.brand
    ensures d.imageUrl == p.imageUrl && d.rating == p.rating
  {
    Details(p.name, p.reviewCount, p.brand, p.imageUrl, p.rating)
  }

  /** An `n` by `n` similarity matrix, as the pairwise similarity of the
      catalog's rows with themselves always is. */
  predicate IsSquare(similarity: seq<seq<real>>, n: nat)
  {
    |similarity| == n && forall i :: 0 <= i < n ==> |similarity[i]| == n
  }

  /** `train_data['Name'].values` */
  function NameColumn(catalog: seq<Product>): (names: seq<string>)
    ensures |names| == |catalog|
    ensures forall i :: 0 <= i < |names| ==> names[i] == catalog[i].name
  {
    seq(|catalog|, i requires 0 <= i < |catalog| => catalog[i].name)
  }

  /** `item_name in train_data['Name'].values`: some row holds the name. */
  function InCatalog(catalog: seq<Product>, name: string): (b: bool)
    ensures b <==> exists i :: 0 <= i < |catalog| && catalog[i].name == name
  {
    var names := NameColumn(catalog);
    assert forall i :: 0 <= i < |catalog| ==> names[i] == catalog[i].name;
    name in names
  }

  /** `train_data[train_data['Name'] == item_name].index[0]`, as a search:
      the lowest row holding the name, or None when no row does. */
  function FindFirst(catalog: seq<Product>, name: string): (r: Option<nat>)
    ensures r.None? <==> !InCatalog(catalog, name)
    ensures r.Some? ==>
      && r.value < |catalog|
      && catalog[r.value].name == name
      && forall j :: 0 <= j < r.value ==> catalog[j].name != name
  {
    if catalog == [] then None
    else if catalog[0].name == name then Some(0)
    else match FindFirst(catalog[1..], name)
      case None => None
      case Some(i) => Some(i + 1)
  }

  /** The query row the recommendation is computed for, when the name is known:
      the first row holding it, later duplicates ignored. */
  function QueryRow(catalog: seq<Product>, itemName: string): (q: nat)
    requires InCatalog(catalog, itemName)
    ensures q < |catalog| && catalog[q].name == itemName
    ensures forall j :: 0 <= j < q ==> catalog[j].name != itemName
  {
    FindFirst(catalog, itemName).value
  }

  /** `similar_items[1:top_n + 1]`: the ranked entries from position 1 on,
      `topN` of them when there are enough. A negative `topN` is a Python slice
      bound: -1 selects nothing and `topN <= -2` stops `-topN - 1` entries
      before the end. */
  function Select(ranked: seq<Scored>, topN: int): (r: seq<Scored>)
    ensures topN >= 0 ==> |r| == if ranked == [] then 0 else Min(topN, |ranked| - 1)
    ensures topN == -1 ==> r == []
    ensures topN <= -2 ==> |r| == Max(|ranked| + topN, 0)
    ensures forall k :: 0 <= k < |r| ==> r[k] == ranked[k + 1]
  {
    Slice(ranked, 1, topN + 1)
  }

  /** app.py:55-60 after the lookup: the ranked similarity row of the query,
      past its first entry. */
  function TopSimilar(row: seq<real>, topN: int): (r: seq<Scored>)
    ensures topN >= 0 ==> |r| == if row == [] then 0 else Min(topN, |row| - 1)
    ensures forall k :: 0 <= k < |r| ==> k + 1 < |row| && r[k] == Rank(row)[k + 1]
    ensures forall k :: 0 <= k < |r| ==> r[k].index < |row| && r[k].score == row[r[k].index]
    ensures forall i, j :: 0 <= i < j < |r| ==> r[i].index != r[j].index
    ensures forall k :: 0 <= k < |r| ==> r[k].index != Rank(row)[0].index
  {
    Select(Rank(row), topN)
  }

  /** `[x[0] for x in top_similar_items]`: the row index of each entry, in order. */
  function IndicesOf(picked: seq<Scored>): (r: seq<nat>)
    ensures |r| == |picked|
    ensures forall k :: 0 <= k < |r| ==> r[k] == picked[k].index
  {
    seq(|picked|, k requires 0 <= k < |picked| => picked[k].index)
  }

  /** `train_data.iloc[indices][['Name', 'ReviewCount', 'Brand', 'ImageURL', 'Rating']]`:
      one result row per index, in the order of `indices`, holding that
      catalog row's display columns. */
  function Rows(catalog: seq<Product>, indices: seq<nat>): (r: seq<Details>)
    requires forall k :: 0 <= k < |indices| ==> indices[k] < |catalog|
    ensures |r| == |indices|
    ensures forall k :: 0 <= k < |r| ==> r[k] == DetailsOf(catalog[indices[k]])
  {
    seq(|indices|, k requires 0 <= k < |indices| => DetailsOf(catalog[indices[k]]))
  }

  /** `content_based_recommendations(train_data, item_name, top_n=10)`, with
      the row similarities handed in as `similarity`. */
  function Recommend(catalog: seq<Product>, similarity: seq<seq<real>>, itemName: string, topN: int := 10)
    : (r: seq<Details>)
    requires IsSquare(similarity, |catalog|)
    ensures !InCatalog(catalog, itemName) ==> r == []
    ensures topN == 0 || topN == -1 ==> r == []
    ensures topN >= 0 && InCatalog(catalog, itemName) ==> |r| == Min(topN, |catalog| - 1)
    ensures topN <= -2 && InCatalog(catalog, itemName) ==> |r| == Max(|catalog| + topN, 0)
  {
    if !InCatalog(catalog, itemName) then []
    else
      var q := QueryRow(catalog, itemName);
      Rows(catalog, IndicesOf(TopSimilar(similarity[q], topN)))
  }

  /** Result row `k` is the catalog row ranked at position `k + 1` by the
      query's similarity row: the first ranked entry is always dropped. */
  lemma RecommendIsRankedTail(catalog: seq<Product>, similarity: seq<seq<real>>, itemName: string, topN: int)
    requires IsSquare(similarity, |catalog|)
    requires InCatalog(catalog, itemName)
    ensures var q := QueryRow(catalog, itemName);
            var ranked := Rank(similarity[q]);
            var r := Recommend(catalog, similarity, itemName, topN);
            forall k :: 0 <= k < |r| ==> k + 1 < |ranked| && r[k] == DetailsOf(catalog[ranked[k + 1].index])
  {
  }

  /** Every row is the dropped first entry, or selected, or ranks behind every
      selected row: a lower score, or the same score and a higher index. */
  lemma SelectedOutscoreTheRest(row: seq<real>, topN: int, j: nat)
    requires j < |row|
    ensures || j == Rank(row)[0].index
            || j in IndicesOf(TopSimilar(row, topN))
            || forall k :: 0 <= k < |TopSimilar(row, topN)| ==> Before(TopSimilar(row, topN)[k], Scored(j, row[j]))
  {
    var ranked, top := Rank(row), TopSimilar(row, topN);
    assert Scored(j, row[j]) in ranked;
    var p :| 0 <= p < |ranked| && ranked[p] == Scored(j, row[j]);
    if 0 < p <= |top| {
      assert top[p - 1] == ranked[p];
      assert IndicesOf(top)[p - 1] == j;
    } else if p > |top| {
      forall k | 0 <= k < |top| ensures Before(top[k], Scored(j, row[j])) {
        assert top[k] == ranked[k + 1];
      }
    }
  }

  /** The dropped first entry holds the highest score of the row. */
  lemma DroppedIsTopScore(row: seq<real>)
    requires |row| > 0
    ensures forall j :: 0 <= j < |row| ==> row[j] <= Rank(row)[0].score
  {
    var ranked := Rank(row);
    forall j | 0 <= j < |row| ensures row[j] <= ranked[0].score {
      assert Scored(j, row[j]) in ranked;
      var p :| 0 <= p < |ranked| && ranked[p] == Scored(j, row[j]);
      assert p == 0 || ranked[0].score >= ranked[p].score;
    }
  }

  /** The query row is left out of its own recommendations whenever it ranks
      first. When `topN` covers the whole catalog it is left out only then:
      it is included exactly when some row scores higher, or a lower-indexed
      row ties with it. */
  lemma QueryExcludedIff(row: seq<real>, q: nat, topN: int)
    requires q < |row|
    requires topN >= 0
    ensures SortsFirst(row, q) ==> q !in IndicesOf(TopSimilar(row, topN))
    ensures topN >= |row| - 1 ==> (q !in IndicesOf(TopSimilar(row, topN)) <==> SortsFirst(row, q))
  {
    var ranked, top := Rank(row), TopSimilar(row, topN);
    FirstRankedIff(row, q);
    if topN >= |row| - 1 && !SortsFirst(row, q) {
      assert Scored(q, row[q]) in ranked;
      var p :| 0 <= p < |ranked| && ranked[p] == Scored(q, row[q]);
      assert p != 0;
      assert top[p - 1] == ranked[p];
      assert IndicesOf(top)[p - 1] == q;
    }
  }

  /** Recommendations of a catalog row whose score ties with a lower-indexed
      row: "A" is row 1, and row 0 ties with it at the top. */
  function TieCatalog(): seq<Product>
  {
    [ Product("B", 5, "BrandB", "b.png", 4.0, "red shoe running"),
      Product("A", 3, "BrandA", "a.png", 3.5, "red shoe running"),
      Product("C", 7, "BrandC", "c.png", 2.0, "blue hat winter") ]
  }

  function TieSimilarity(): seq<seq<real>>
  {
    [ [1.0, 1.0, 0.0], [1.0, 1.0, 0.0], [0.0, 0.0, 1.0] ]
  }

  /** In the tie example the query "A" is row 1. */
  lemma TieExampleQuery()
    ensures InCatalog(TieCatalog(), "A") && QueryRow(TieCatalog(), "A") == 1
  {
    assert TieCatalog()[1].name == "A";
    assert TieCatalog()[0].name != "A";
  }

  /** The tie example's matrix is square, one row and column per product. */
  lemma TieExampleSquare()
    ensures IsSquare(TieSimilarity(), |TieCatalog()|)
  {
    var m := TieSimilarity();
    assert |m[0]| == 3 && |m[1]| == 3 && |m[2]| == 3;
  }

  /** The similarity row of "A" ranks rows 0, 1, 2 in that order: row 0 wins
      the tie with row 1 by its lower index. */
  lemma TieExampleRanking()
    ensures Rank(TieSimilarity()[1]) == [Scored(0, 1.0), Scored(1, 1.0), Scored(2, 0.0)]
  {
    var row := TieSimilarity()[1];
    FirstRankedIff(row, 1);
    assert !SortsFirst(row, 1) by { assert row[0] == row[1]; }
    FirstRankedIff(row, 0);
    assert SortsFirst(row, 0);
    var ranked := Rank(row);
    assert ranked[0].index == 0;
    assert ranked[1].index == 1 by {
      assert Scored(1, row[1]) in ranked;
      var p :| 0 <= p < 3 && ranked[p] == Scored(1, row[1]);
      assert Scored(2, row[2]) in ranked;
      var p2 :| 0 <= p2 < 3 && ranked[p2] == Scored(2, row[2]);
      assert p != 0 && p2 != 0 && p != p2;
      assert ranked[1].score >= ranked[2].score;
    }
    assert ranked[2].index == 2;
    assert ranked[0] == Scored(0, 1.0) && ranked[1] == Scored(1, 1.0) && ranked[2] == Scored(2, 0.0);
  }

  /** As written, the query "A" is recommended to itself and the identical
      product "B" is the one dropped. */
  lemma QueryRecommendedToItself()
    ensures Recommend(TieCatalog(), TieSimilarity(), "A", 2) == [DetailsOf(TieCatalog()[1]), DetailsOf(TieCatalog()[2])]
  {
    TieExampleQuery();
    TieExampleSquare();
    TieExampleRanking();
    RecommendIsRankedTail(TieCatalog(), TieSimilarity(), "A", 2);
    var ranked := [Scored(0, 1.0), Scored(1, 1.0), Scored(2, 0.0)];
    var r := Recommend(TieCatalog(), TieSimilarity(), "A", 2);
    assert |r| == 2;
    assert r[0] == DetailsOf(TieCatalog()[ranked[1].index]);
    assert r[1] == DetailsOf(TieCatalog()[ranked[2].index]);
  }

  /** Removing row 1 from the tie example's ranking leaves rows 0 and 2. */
  lemma TieExampleWithout()
    ensures Without([Scored(0, 1.0), Scored(1, 1.0), Scored(2, 0.0)], 1) == [Scored(0, 1.0), Scored(2, 0.0)]
  {
    var l := [Scored(0, 1.0), Scored(1, 1.0), Scored(2, 0.0)];
    assert l[1..] == [Scored(1, 1.0), Scored(2, 0.0)];
    assert l[1..][1..] == [Scored(2, 0.0)];
    assert l[1..][1..][1..] == [];
  }

  /** The corrected selection for "A" is rows 0 and 2. */
  lemma TieExampleTopOthers()
    ensures TopOthers(TieSimilarity()[1], 1, 2) == [Scored(0, 1.0), Scored(2, 0.0)]
  {
    TieExampleRanking();
    TieExampleWithout();
  }

  /** The corrected routine recommends "B" and "C" for the same input. */
  lemma CorrectedOnTieExample()
    ensures RecommendExcludingQuery(TieCatalog(), TieSimilarity(), "A", 2) == [DetailsOf(TieCatalog()[0]), DetailsOf(TieCatalog()[2])]
  {
    TieExampleQuery();
    TieExampleSquare();
    TieExampleTopOthers();
    RecommendExcludingQueryRows(TieCatalog(), TieSimilarity(), "A", 2);
    var top := [Scored(0, 1.0), Scored(2, 0.0)];
    var r := RecommendExcludingQuery(TieCatalog(), TieSimilarity(), "A", 2);
    assert |r| == 2;
    assert r[0] == DetailsOf(TieCatalog()[top[0].index]);
    assert r[1] == DetailsOf(TieCatalog()[top[1].index]);
  }

  /** Recommendations with the query row itself left out, wherever it ranks:
      every other row, ranked, and the first `topN` of them kept; a negative
      `topN` selects nothing. */
  function RecommendExcludingQuery(catalog: seq<Product>, similarity: seq<seq<real>>, itemName: string, topN: int := 10)
    : (r: seq<Details>)
    requires IsSquare(similarity, |catalog|)
    ensures !InCatalog(catalog, itemName) ==> r == []
    ensures topN <= 0 ==> r == []
    ensures topN >= 0 && InCatalog(catalog, itemName) ==> |r| == Min(topN, |catalog| - 1)
  {
    if !InCatalog(catalog, itemName) then []
    else
      var q := QueryRow(catalog, itemName);
      Rows(catalog, IndicesOf(TopOthers(similarity[q], q, topN)))
  }

  /** Result row `k` of the corrected routine holds the display columns of the
      catalog row at position `k` of the corrected selection, which is never
      the query row. */
  lemma RecommendExcludingQueryRows(catalog: seq<Product>, similarity: seq<seq<real>>, itemName: string, topN: int)
    requires IsSquare(similarity, |catalog|)
    requires InCatalog(catalog, itemName)
    ensures var q := QueryRow(catalog, itemName);
            var top := TopOthers(similarity[q], q, topN);
            var r := RecommendExcludingQuery(catalog, similarity, itemName, topN);
            |r| == |top| &&
            forall k :: 0 <= k < |r| ==>
              top[k].index != q && r[k] == DetailsOf(catalog[top[k].index])
  {
  }

  /** The ranked row with row `q` removed, cut to `topN` entries: the best
      ranked other rows, each with its own score, no row twice, in `RankedOrder`. */
  function TopOthers(row: seq<real>, q: nat, topN: int): (r: seq<Scored>)
    requires q < |row|
    ensures forall k :: 0 <= k < |r| ==>
      r[k].index < |row| && r[k].index != q && r[k].score == row[r[k].index]
    ensures forall i, j :: 0 <= i < j < |r| ==> r[i].index != r[j].index
    ensures RankedOrder(r)
    ensures topN >= 0 ==> |r| == Min(topN, |row| - 1)
    ensures topN < 0 ==> r == []
  {
    var ranked := Rank(row);
    var others := Without(ranked, q);
    assert Scored(q, row[q]) in ranked;
    WithoutLength(ranked, q);
    WithoutRanked(ranked, q);
    if topN < 0 then [] else others[..Min(topN, |others|)]
  }

  /** Every row other than `q` is selected by the corrected routine, or ranks
      behind every row it selects: a lower score, or the same score and a
      higher index, so a tie at the cut keeps the lower-indexed row. */
  lemma OthersOutscoreTheRest(row: seq<real>, q: nat, topN: int, j: nat)
    requires q < |row| && j < |row|
    ensures || j == q
            || j in IndicesOf(TopOthers(row, q, topN))
            || forall k :: 0 <= k < |TopOthers(row, q, topN)| ==> Before(TopOthers(row, q, topN)[k], Scored(j, row[j]))
  {
    var ranked := Rank(row);
    var others := Without(ranked, q);
    var top := TopOthers(row, q, topN);
    WithoutRanked(ranked, q);
    assert top == [] || top == others[..|top|];
    if j != q {
      assert Scored(j, row[j]) in ranked;
      assert Scored(j, row[j]) in others;
      var p :| 0 <= p < |others| && others[p] == Scored(j, row[j]);
      if p < |top| {
        assert top[p] == others[p];
        assert IndicesOf(top)[p] == j;
      } else {
        forall k | 0 <= k < |top| ensures Before(top[k], Scored(j, row[j])) {
          assert top[k] == others[k];
        }
      }
    }
  }

  /** `l` with the entries of row `q` removed: exactly the other entries, in
      their order. */
  function Without(l: seq<Scored>, q: nat): (r: seq<Scored>)
    ensures forall x :: x in r <==> x in l && x.index != q
    ensures |r| <= |l|
  {
    if l == [] then []
    else
      assert l == [l[0]] + l[1..];
      if l[0].index == q then Without(l[1..], q)
      else [l[0]] + Without(l[1..], q)
  }

  /** Removing entries keeps the order of the rest. */
  lemma {:induction false} WithoutRanked(l: seq<Scored>, q: nat)
    requires RankedOrder(l)
    ensures RankedOrder(Without(l, q))
  {
    if l != [] {
      WithoutRanked(l[1..], q);
      if l[0].index != q {
        var t := Without(l[1..], q);
        forall y | y in t ensures Before(l[0], y) {
          HeadBeforeRest(l, y);
        }
        ConsRanked(l[0], t);
      }
    }
  }

  /** With no index repeated, removing row `q` shortens the list by one
      exactly when `q` occurs in it. */
  lemma {:induction false} WithoutLength(l: seq<Scored>, q: nat)
    requires forall i, j :: 0 <= i < j < |l| ==> l[i].index != l[j].index
    ensures |Without(l, q)| == if exists k :: 0 <= k < |l| && l[k].index == q then |l| - 1 else |l|
  {
    if l != [] {
      WithoutLength(l[1..], q);
      if l[0].index == q {
        assert forall k :: 0 < k < |l| ==> l[k].index != q;
      } else {
        assert (exists k :: 0 <= k < |l| && l[k].index == q) <==> (exists k :: 0 <= k < |l[1..]| && l[1..][k].index == q) by {
          forall k | 0 < k < |l| ensures l[k] == l[1..][k - 1] { }
        }
      }
    }
  }

  /** Where the query ranks first, the as-written recommendations and the
      corrected ones agree. */
  lemma CorrectedAgreesWhenQueryFirst(row: seq<real>, q: nat, topN: int)
    requires q < |row| && topN >= 0
    requires SortsFirst(row, q)
    ensures TopOthers(row, q, topN) == TopSimilar(row, topN)
  {
    var ranked := Rank(row);
    FirstRankedIff(row, q);
    WithoutHead(ranked, q);
    var m := Min(topN, |ranked| - 1);
    assert TopOthers(row, q, topN) == ranked[1..][..m];
    assert TopSimilar(row, topN) == ranked[1..m + 1];
  }

  /** Removing the row that stands first, and only there, leaves the tail. */
  lemma WithoutHead(l: seq<Scored>, q: nat)
    requires l != [] && l[0].index == q
    requires forall i, j :: 0 <= i < j < |l| ==> l[i].index != l[j].index
    ensures Without(l, q) == l[1..]
  {
    assert forall k :: 0 <= k < |l[1..]| ==> l[1..][k].index != q by {
      forall k | 0 <= k < |l[1..]| ensures l[1..][k].index != q {
        assert l[1..][k] == l[k + 1];
      }
    }
    WithoutKeepsAll(l[1..], q);
  }

  /** Removing an index that does not occur leaves the list unchanged. */
  lemma {:induction false} WithoutKeepsAll(l: seq<Scored>, q: nat)
    requires forall k :: 0 <= k < |l| ==> l[k].index != q
    ensures Without(l, q) == l
  {
    if l != [] {
      WithoutKeepsAll(l[1..], q);
    }
  }
}
