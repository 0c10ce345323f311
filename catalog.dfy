/** The Store model: its persisted record, the pre-save slug hook on a store
    document, the `reviews` relation, and the two aggregation pipelines
    `getTagsList` and `getTopStores`. Collections are sequences in their
    natural order. */
module Catalog {
  import opened Common
  import Ranking
  import Slugs

  /** Object identifiers are opaque; numbers stand for them. */
  type StoreId = nat
  type UserId = nat

  /** A committed store record, as the aggregation pipelines see it. */
  datatype Store = Store(id: StoreId, name: string, slug: string, tags: seq<string>,
                         author: UserId, created: int)

  /** A review refers to its store by id. */
  datatype Review = Review(store: StoreId, rating: int)

  // ---------------------------------------------------------------------
  // The `trim: true` setter of `name`
  // ---------------------------------------------------------------------

  /** The characters `String.prototype.trim` removes: ECMAScript white space
      and line terminators. */
  predicate IsSpace(c: char) {
    c == ' ' || c == '\t' || c == '\n' || c == '\r' || c == '\U{000B}' || c == '\U{000C}'
    || c == '\U{00A0}' || c == '\U{1680}' || '\U{2000}' <= c <= '\U{200A}'
    || c == '\U{2028}' || c == '\U{2029}' || c == '\U{202F}' || c == '\U{205F}'
    || c == '\U{3000}' || c == '\U{FEFF}'
  }

  /** `s` without its leading white space: a suffix of `s` that is empty or
      starts with a character other than white space. */
  function TrimStart(s: string): (r: string)
    ensures |r| <= |s| && r == s[|s| - |r|..]
    ensures r == [] || !IsSpace(r[0])
  {
    if s != [] && IsSpace(s[0]) then TrimStart(s[1..]) else s
  }

  /** `s` without its trailing white space: a prefix of `s` that is empty or
      ends with a character other than white space. */
  function TrimEnd(s: string): (r: string)
    ensures |r| <= |s| && r == s[..|r|]
    ensures r == [] || !IsSpace(r[|r| - 1])
  {
    if s != [] && IsSpace(s[|s| - 1]) then TrimEnd(s[..|s| - 1]) else s
  }

  /** What `TrimStart` drops is white space only. */
  lemma {:induction false} TrimStartDropsSpace(s: string)
    ensures forall i :: 0 <= i < |s| - |TrimStart(s)| ==> IsSpace(s[i])
  {
    if s != [] && IsSpace(s[0]) {
      TrimStartDropsSpace(s[1..]);
      forall i | 1 <= i < |s| - |TrimStart(s)| ensures IsSpace(s[i]) {
        assert s[i] == s[1..][i - 1];
      }
    }
  }

  /** What `TrimEnd` drops is white space only. */
  lemma {:induction false} TrimEndDropsSpace(s: string)
    ensures forall i :: |TrimEnd(s)| <= i < |s| ==> IsSpace(s[i])
  {
    if s != [] && IsSpace(s[|s| - 1]) {
      TrimEndDropsSpace(s[..|s| - 1]);
      forall i | |TrimEnd(s)| <= i < |s| - 1 ensures IsSpace(s[i]) {
        assert s[i] == s[..|s| - 1][i];
      }
    }
  }

  /** `String.prototype.trim`: neither end of the result is white space. */
  function Trim(s: string): (r: string)
    ensures |r| <= |s|
    ensures r == [] || (!IsSpace(r[0]) && !IsSpace(r[|r| - 1]))
  {
    TrimEndKeepsFront(TrimStart(s));
    TrimEnd(TrimStart(s))
  }

  /** Trimming the end keeps the first non-space character in front. */
  lemma {:induction false} TrimEndKeepsFront(s: string)
    requires s == [] || !IsSpace(s[0])
    ensures var r := TrimEnd(s); r == [] || !IsSpace(r[0])
  {
    if s != [] && IsSpace(s[|s| - 1]) {
      TrimEndKeepsFront(s[..|s| - 1]);
    }
  }

  /** Trimming twice is trimming once. */
  lemma TrimIdempotent(s: string)
    ensures Trim(Trim(s)) == Trim(s)
  {
    var r := Trim(s);
    TrimEndKeepsFront(TrimStart(s));
    assert TrimStart(r) == r;
  }

  /** Appending any character to a string that is not all white space keeps
      what `TrimStart` leaves, plus that character; on an all-white-space
      string the result is the leading trim of that character alone. */
  lemma {:induction false} TrimStartAppend(s: string, c: char)
    ensures TrimStart(s + [c]) == if TrimStart(s) == [] then TrimStart([c]) else TrimStart(s) + [c]
  {
    if s == [] {
      assert s + [c] == [c];
    } else {
      var u := s + [c];
      assert u[0] == s[0];
      if IsSpace(s[0]) {
        assert u[1..] == s[1..] + [c];
        assert TrimStart(u) == TrimStart(s[1..] + [c]);
        TrimStartAppend(s[1..], c);
      } else {
        assert TrimStart(u) == u;
      }
    }
  }

  /** Trailing white space does not change the trimmed name. */
  lemma TrimAppendSpace(s: string, c: char)
    requires IsSpace(c)
    ensures Trim(s + [c]) == Trim(s)
  {
    TrimStartAppend(s, c);
    var t := TrimStart(s);
    if t != [] {
      assert (t + [c])[..|t|] == t;
    }
  }

  /** A store document in memory, as the pre-save hook sees it: its name, its
      slug (unset until the first save), and whether `name` was modified
      since the document was loaded or created. */
  class StoreDocument {
    var name: string
    var slug: Option<string>
    var nameModified: bool

    /** A new document: the `trim` setter applies to the given name, and
        every path set at creation counts as modified. */
    constructor (name: string)
      ensures this.name == Trim(name) && slug == None && nameModified
    {
      this.name := Trim(name);
      slug := None;
      nameModified := true;
    }

    /** Assigning the name stores it trimmed, and marks it modified only when
        the trimmed value differs from the current one. */
    method SetName(newName: string)
      modifies this
      ensures name == Trim(newName) && slug == old(slug)
      ensures nameModified == (old(nameModified) || Trim(newName) != old(name))
    {
      var value := Trim(newName);
      if value != name {
        nameModified := true;
      }
      name := value;
    }

    /** The pre-save hook. `committed` holds the slugs of the stores already
        in the collection; `slugify` is the external normaliser. */
    method PreSave(committed: seq<string>, slugify: string -> string)
      modifies this
      ensures name == old(name) && nameModified == old(nameModified)
      ensures !old(nameModified) ==> slug == old(slug)
      ensures old(nameModified) ==> slug == Some(Slugs.ResolveSlug(slugify(name), committed))
    {
      if !nameModified {
        return;
      }
      slug := Some(slugify(name));
      var storesWithSlug := Slugs.MatchingSlugs(committed, slug.value);
      if |storesWithSlug| > 0 {
        slug := Some(slug.value + "-" + Slugs.DecimalString(|storesWithSlug| + 1));
      }
    }

    /** Saving runs the hook and then clears the modified state. */
    method Save(committed: seq<string>, slugify: string -> string)
      modifies this
      ensures name == old(name) && !nameModified
      ensures !old(nameModified) ==> slug == old(slug)
      ensures old(nameModified) ==> slug == Some(Slugs.ResolveSlug(slugify(name), committed))
    {
      PreSave(committed, slugify);
      nameModified := false;
    }
  }

  /** Two stores whose names normalise to the same base receive `base` and
      `base-2`; assigning the first one its own name again, or that name with
      a trailing space, and saving keeps its slug. */
  method SameBaseScenario(slugify: string -> string, first: string, second: string)
      returns (a: StoreDocument, b: StoreDocument)
    requires slugify(Trim(first)) == slugify(Trim(second))
    ensures a.slug == Some(slugify(Trim(first))) && a.name == Trim(first)
    ensures b.slug == Some(slugify(Trim(first)) + "-2")
  {
    var base := slugify(Trim(first));
    a := new StoreDocument(first);
    a.Save([], slugify);
    Slugs.MatchesItself(base);
    assert [base][1..] == [];
    assert Slugs.CountMatches([base], base) == 1;
    b := new StoreDocument(second);
    b.Save([base], slugify);
    assert Slugs.DecimalString(2) == "2";
    assert base + "-" + "2" == base + "-2";
    a.SetName(first);
    a.Save([base, b.slug.value], slugify);
    TrimAppendSpace(first, ' ');
    a.SetName(first + " ");
    a.Save([base, b.slug.value], slugify);
  }

  /** The `reviews` relation: the reviews whose `store` is this store's id,
      in collection order. */
  function ReviewsOf(s: Store, reviews: seq<Review>): (r: seq<Review>)
    ensures forall x :: multiset(r)[x] == if x.store == s.id then multiset(reviews)[x] else 0
    ensures forall x :: x in r ==> x.store == s.id
  {
    FilterCounts(reviews, (x: Review) => x.store == s.id);
    Filter(reviews, (x: Review) => x.store == s.id)
  }

  // ---------------------------------------------------------------------
  // getTagsList: $unwind tags, $group by tag with a count, $sort by count
  // descending.
  // ---------------------------------------------------------------------

  datatype TagCount = TagCount(tag: string, count: nat)

  /** The number of times `t` occurs in the tag lists of all stores, counting
      repeats within one store. */
  function Occurrences(stores: seq<Store>, t: string): nat {
    if stores == [] then 0 else multiset(stores[0].tags)[t] + Occurrences(stores[1..], t)
  }

  /** The `$unwind` stage: one entry per tag per store. */
  function Unwind(stores: seq<Store>): (r: seq<string>)
    ensures forall t :: multiset(r)[t] == Occurrences(stores, t)
  {
    if stores == [] then [] else stores[0].tags + Unwind(stores[1..])
  }

  /** The distinct values of `ts`, in order of first occurrence. */
  function Distinct(ts: seq<string>): (r: seq<string>)
    ensures forall t :: t in r <==> t in ts
    ensures forall i, j :: 0 <= i < j < |r| ==> r[i] != r[j]
  {
    if ts == [] then []
    else
      var d := Distinct(ts[..|ts| - 1]);
      var t := ts[|ts| - 1];
      assert ts == ts[..|ts| - 1] + [t];
      if t in d then d else d + [t]
  }

  /** The `$group` stage: each distinct tag with its number of entries. */
  function Group(ts: seq<string>): (r: seq<TagCount>)
    ensures forall i :: 0 <= i < |r| ==> r[i].count == multiset(ts)[r[i].tag]
    ensures forall i, j :: 0 <= i < j < |r| ==> r[i].tag != r[j].tag
    ensures forall t :: t in ts <==> exists i :: 0 <= i < |r| && r[i].tag == t
  {
    var d := Distinct(ts);
    var r := seq(|d|, i requires 0 <= i < |d| => TagCount(d[i], multiset(ts)[d[i]]));
    assert forall t :: t in ts ==> exists i :: 0 <= i < |r| && r[i].tag == t by {
      forall t | t in ts ensures exists i :: 0 <= i < |r| && r[i].tag == t {
        var i :| 0 <= i < |d| && d[i] == t;
        assert r[i].tag == t;
      }
    }
    r
  }

  function TagCountKey(e: TagCount): real { e.count as real }

  /** `getTagsList`. */
  function TagsList(stores: seq<Store>): seq<TagCount> {
    Ranking.SortDesc(Group(Unwind(stores)), TagCountKey)
  }

  /** The counts never increase along the tag list. */
  lemma TagsListOrdered(stores: seq<Store>)
    ensures var r := TagsList(stores);
            forall i, j :: 0 <= i < j < |r| ==> r[i].count >= r[j].count
  {
    var r := TagsList(stores);
    assert Ranking.NonIncreasing(r, TagCountKey);
    forall i, j | 0 <= i < j < |r| ensures r[i].count >= r[j].count {
      assert TagCountKey(r[i]) >= TagCountKey(r[j]);
    }
  }

  /** Every entry's count is the total number of occurrences of its tag over
      all stores, and is positive. */
  lemma TagsListCounts(stores: seq<Store>)
    ensures var r := TagsList(stores);
            forall i :: 0 <= i < |r| ==> r[i].count == Occurrences(stores, r[i].tag) > 0
  {
    var g := Group(Unwind(stores));
    var r := TagsList(stores);
    forall i | 0 <= i < |r| ensures r[i].count == Occurrences(stores, r[i].tag) > 0 {
      assert r[i] in multiset(g);
      var k :| 0 <= k < |g| && g[k] == r[i];
      assert r[i].tag in Unwind(stores);
    }
  }

  /** Some entry of `r` is for tag `t`. */
  predicate Lists(r: seq<TagCount>, t: string) {
    exists i :: 0 <= i < |r| && r[i].tag == t
  }

  lemma ListsPermutation(a: seq<TagCount>, b: seq<TagCount>, t: string)
    requires multiset(a) == multiset(b)
    requires Lists(a, t)
    ensures Lists(b, t)
  {
    var i :| 0 <= i < |a| && a[i].tag == t;
    assert a[i] in multiset(b);
    var k :| 0 <= k < |b| && b[k] == a[i];
  }

  /** A tag is listed exactly when some store carries it. */
  lemma TagsListComplete(stores: seq<Store>, t: string)
    ensures Lists(TagsList(stores), t) <==> Occurrences(stores, t) > 0
  {
    var u := Unwind(stores);
    var g := Group(u);
    var r := TagsList(stores);
    if Lists(g, t) {
      ListsPermutation(g, r, t);
    }
    if Lists(r, t) {
      ListsPermutation(r, g, t);
    }
    assert Lists(g, t) <==> t in u;
    assert t in u <==> multiset(u)[t] > 0;
  }

  /** Each tag is listed once. */
  lemma TagsListDistinct(stores: seq<Store>)
    ensures var r := TagsList(stores);
            forall i, j :: 0 <= i < j < |r| ==> r[i].tag != r[j].tag
  {
    var g := Group(Unwind(stores));
    var r := TagsList(stores);
    forall i, j | 0 <= i < j < |r| ensures r[i].tag != r[j].tag {
      if r[i].tag == r[j].tag {
        assert r[i] in multiset(g) && r[j] in multiset(g);
        var ki :| 0 <= ki < |g| && g[ki] == r[i];
        var kj :| 0 <= kj < |g| && g[kj] == r[j];
        assert ki == kj;
        assert r[i] == r[j];
        TwoIndicesCountTwice(r, i, j);
        DistinctKeysOnce(g, r[i]);
        assert false;
      }
    }
  }

  lemma TwoIndicesCountTwice<T>(s: seq<T>, i: nat, j: nat)
    requires i < j < |s| && s[i] == s[j]
    ensures multiset(s)[s[i]] >= 2
  {
    assert s == s[..j] + s[j..];
    assert s[i] in s[..j];
    assert s[j] in s[j..];
  }

  lemma {:induction false} DistinctKeysOnce(g: seq<TagCount>, e: TagCount)
    requires forall i, j :: 0 <= i < j < |g| ==> g[i].tag != g[j].tag
    requires e in g
    ensures multiset(g)[e] == 1
  {
    assert g == [g[0]] + g[1..];
    if e == g[0] {
      assert e !in g[1..];
    } else {
      var rest := g[1..];
      assert forall i, j :: 0 <= i < j < |rest| ==> rest[i].tag != rest[j].tag by {
        forall i, j | 0 <= i < j < |rest| ensures rest[i].tag != rest[j].tag {
          assert rest[i] == g[i + 1] && rest[j] == g[j + 1];
        }
      }
      DistinctKeysOnce(rest, e);
    }
  }

  // ---------------------------------------------------------------------
  // getTopStores: $lookup reviews by store id, $match at least two reviews,
  // $addFields the mean rating, $sort by it descending, $limit 10.
  // ---------------------------------------------------------------------

  const TopLimit: nat := 10

  datatype RankedStore = RankedStore(store: Store, reviewDetails: seq<Review>, averageRating: real)

  function SumRatings(rs: seq<Review>): int {
    if rs == [] then 0 else rs[0].rating + SumRatings(rs[1..])
  }

  /** `$avg` over the ratings: their exact mean. */
  function Average(rs: seq<Review>): real
    requires |rs| > 0
  {
    SumRatings(rs) as real / |rs| as real
  }

  /** A store took part in the ranking when at least two reviews refer to it
      (`reviewDetails.1` exists). */
  predicate Qualifies(s: Store, reviews: seq<Review>) {
    |ReviewsOf(s, reviews)| >= 2
  }

  /** The `$addFields` stage for one store: its reviews and their `$avg`. */
  function Ranked(s: Store, reviews: seq<Review>): (r: RankedStore)
    requires Qualifies(s, reviews)
    ensures r.store == s && |r.reviewDetails| >= 2
    ensures r.averageRating == Average(r.reviewDetails)
  {
    RankedStore(s, ReviewsOf(s, reviews), Average(ReviewsOf(s, reviews)))
  }

  /** The `$lookup`, `$match` and `$addFields` stages, store by store. */
  function Joined(stores: seq<Store>, reviews: seq<Review>): seq<RankedStore> {
    if stores == [] then []
    else
      (if Qualifies(stores[0], reviews) then [Ranked(stores[0], reviews)] else [])
        + Joined(stores[1..], reviews)
  }

  /** Only qualifying stores of the collection are joined, each with its own
      reviews and their mean. */
  lemma {:induction false} JoinedSound(stores: seq<Store>, reviews: seq<Review>)
    ensures forall e :: e in Joined(stores, reviews) ==>
              e.store in stores && Qualifies(e.store, reviews) && e == Ranked(e.store, reviews)
  {
    if stores != [] {
      JoinedSound(stores[1..], reviews);
      assert stores == [stores[0]] + stores[1..];
    }
  }

  /** Every qualifying store of the collection is joined. */
  lemma {:induction false} JoinedComplete(stores: seq<Store>, reviews: seq<Review>)
    ensures forall s :: s in stores && Qualifies(s, reviews) ==> Ranked(s, reviews) in Joined(stores, reviews)
  {
    if stores != [] {
      JoinedComplete(stores[1..], reviews);
      assert stores == [stores[0]] + stores[1..];
    }
  }

  function AverageKey(e: RankedStore): real { e.averageRating }

  /** `getTopStores`. */
  function TopStores(stores: seq<Store>, reviews: seq<Review>): seq<RankedStore> {
    Ranking.TopK(Joined(stores, reviews), AverageKey, TopLimit)
  }

  /** Every ranked store has at least two reviews, its review details are
      exactly the reviews referring to it, and its average rating is the sum
      of their ratings over their number. */
  lemma TopStoresQualify(stores: seq<Store>, reviews: seq<Review>)
    ensures forall e :: e in TopStores(stores, reviews) ==>
              && e.store in stores
              && |e.reviewDetails| >= 2
              && (forall x :: x in e.reviewDetails ==> x.store == e.store.id)
              && e.reviewDetails == ReviewsOf(e.store, reviews)
              && e.averageRating == SumRatings(e.reviewDetails) as real / |e.reviewDetails| as real
  {
    JoinedSound(stores, reviews);
  }

  /** The ranking is ordered by average rating, highest first, and holds ten
      stores, or every qualifying store when fewer than ten qualify. */
  lemma TopStoresOrdered(stores: seq<Store>, reviews: seq<Review>)
    ensures var r := TopStores(stores, reviews);
            && |r| == Min(TopLimit, |Joined(stores, reviews)|)
            && |r| <= TopLimit
            && forall i, j :: 0 <= i < j < |r| ==> r[i].averageRating >= r[j].averageRating
  {
    var r := TopStores(stores, reviews);
    assert Ranking.NonIncreasing(r, AverageKey);
    forall i, j | 0 <= i < j < |r| ensures r[i].averageRating >= r[j].averageRating {
      assert AverageKey(r[i]) >= AverageKey(r[j]);
    }
  }

  /** A qualifying store that is not in the ranking has an average no higher
      than that of any store in it. */
  lemma TopStoresDominate(stores: seq<Store>, reviews: seq<Review>, s: Store)
    requires s in stores && Qualifies(s, reviews)
    requires Ranked(s, reviews) !in TopStores(stores, reviews)
    ensures forall e :: e in TopStores(stores, reviews) ==> e.averageRating >= Average(ReviewsOf(s, reviews))
  {
    JoinedComplete(stores, reviews);
    Ranking.TopKDominates(Joined(stores, reviews), AverageKey, TopLimit, Ranked(s, reviews));
  }

  /** A store with ratings 3 and 5 and another store with a single review:
      only the first is ranked, with average 4. */
  lemma TopStoresExample()
    ensures TopStores([ExampleA, ExampleB], ExampleReviews)
            == [RankedStore(ExampleA, [Review(1, 3), Review(1, 5)], 4.0)]
  {
    var rs := ExampleReviews;
    var e := RankedStore(ExampleA, [Review(1, 3), Review(1, 5)], 4.0);
    ExampleJoin();
    assert Ranking.SortDesc([e], AverageKey) == [e] by {
      assert [e][1..] == [];
    }
  }

  const ExampleA := Store(1, "A", "a", [], 7, 0)
  const ExampleB := Store(2, "B", "b", [], 7, 0)
  const ExampleReviews := [Review(1, 3), Review(2, 5), Review(1, 5)]

  lemma ExampleJoin()
    ensures Joined([ExampleA, ExampleB], ExampleReviews)
            == [RankedStore(ExampleA, [Review(1, 3), Review(1, 5)], 4.0)]
  {
    ExampleARanked();
    ExampleBSkipped();
    assert [ExampleA, ExampleB][1..] == [ExampleB];
  }

  lemma ExampleARanked()
    ensures Qualifies(ExampleA, ExampleReviews)
    ensures Ranked(ExampleA, ExampleReviews) == RankedStore(ExampleA, [Review(1, 3), Review(1, 5)], 4.0)
  {
    ExampleLookupA();
    ExampleSum();
  }

  lemma ExampleSum()
    ensures SumRatings([Review(1, 3), Review(1, 5)]) == 8
  {
    assert [Review(1, 3), Review(1, 5)][1..][1..] == [];
  }

  lemma ExampleBSkipped()
    ensures Joined([ExampleB], ExampleReviews) == []
  {
    ExampleLookupB();
    JoinedSingle(ExampleB, ExampleReviews);
  }

  /** A single store joins to the empty list exactly when it does not
      qualify. */
  lemma JoinedSingle(s: Store, reviews: seq<Review>)
    ensures Joined([s], reviews) == [] <==> !Qualifies(s, reviews)
  {
    assert [s][1..] == [];
  }

  lemma ExampleLookupA()
    ensures ReviewsOf(ExampleA, ExampleReviews) == [Review(1, 3), Review(1, 5)]
  {
    var rs := ExampleReviews;
    assert rs[1..][1..][1..] == [];
    assert rs[1..] == [Review(2, 5), Review(1, 5)];
    assert rs[1..][1..] == [Review(1, 5)];
  }

  lemma ExampleLookupB()
    ensures |ReviewsOf(ExampleB, ExampleReviews)| == 1
  {
    var rs := ExampleReviews;
    assert rs[1..][1..][1..] == [];
    assert rs[1..] == [Review(2, 5), Review(1, 5)];
    assert rs[1..][1..] == [Review(1, 5)];
  }
}
