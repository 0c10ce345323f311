/** The business rules of the store controller, without HTTP and the
    database: pagination of the store list, the owner check, the tag filter,
    the favourite ("heart") toggle, forcing the location type of an edited
    store, and the upload filter and photo file name. */
module StoreController {
  import opened Common
  import Ranking
  import Catalog

  // ---------------------------------------------------------------------
  // getStores: pagination
  // ---------------------------------------------------------------------

  /** The `page` route parameter after JavaScript's numeric conversion:
      missing, not a number, or an integer. */
  datatype PageParam = Absent | NotANumber | Numeric(value: int)

  /** What `getStores` answers: a redirect to page 1, a redirect to another
      page, or the rendered page with the total count and number of pages. */
  datatype StoresPage =
    | RedirectToFirst
    | RedirectToPage(target: int)
    | Render(stores: seq<Catalog.Store>, page: int, pages: nat, count: nat)

  const PageLimit: nat := 4

  /** `Math.ceil(count / limit)`. */
  function PageCount(count: nat): (pages: nat)
    ensures pages * PageLimit >= count
    ensures pages > 0 ==> (pages - 1) * PageLimit < count
  {
    (count + PageLimit - 1) / PageLimit
  }

  function CreatedKey(s: Catalog.Store): real { s.created as real }

  /** The collection sorted by creation time, newest first: the same stores,
      each as often as before, with creation times that never increase. */
  function NewestFirst(stores: seq<Catalog.Store>): (r: seq<Catalog.Store>)
    ensures multiset(r) == multiset(stores)
    ensures forall i, j :: 0 <= i < j < |r| ==> r[i].created >= r[j].created
  {
    var r := Ranking.SortDesc(stores, CreatedKey);
    assert forall i, j :: 0 <= i < j < |r| ==> CreatedKey(r[i]) >= CreatedKey(r[j]);
    r
  }

  /** The number of stores the query skips for a page. */
  function Skip(page: int): int { page * PageLimit - PageLimit }

  /** The page the handler works with: 1 when the parameter is missing. */
  function PageNumber(param: PageParam): int
    requires !param.NotANumber?
  {
    if param.Absent? then 1 else param.value
  }

  /** `getStores`. */
  function GetStores(param: PageParam, stores: seq<Catalog.Store>): (r: StoresPage)
    ensures r.RedirectToFirst? <==> param.NotANumber? || (param.Numeric? && param.value < 1)
  {
    if param.NotANumber? || PageNumber(param) < 1 then RedirectToFirst
    else
      var page := PageNumber(param);
      var skip := Skip(page);
      var ordered := NewestFirst(stores);
      var count := |stores|;
      var slice := ordered[Min(skip, count)..Min(skip + PageLimit, count)];
      var pages := PageCount(count);
      if |slice| == 0 && skip != 0 then RedirectToPage(pages)
      else Render(slice, page, pages, count)
  }

  /** A rendered page holds at most four stores: those at positions
      skip, skip+1, ... of the newest-first order, where skip is
      (page-1)*4, as many as there are up to four. */
  lemma PageContents(param: PageParam, stores: seq<Catalog.Store>)
    requires GetStores(param, stores).Render?
    ensures var r := GetStores(param, stores);
            var skip := (r.page - 1) * PageLimit;
            && r.page == PageNumber(param) >= 1
            && r.count == |stores|
            && r.pages == PageCount(|stores|)
            && |r.stores| == Max(0, Min(PageLimit, |stores| - skip))
            && |r.stores| <= PageLimit
            && forall i :: 0 <= i < |r.stores| ==> r.stores[i] == NewestFirst(stores)[skip + i]
  {
    var page := PageNumber(param);
    var skip := Skip(page);
    assert skip == (page - 1) * PageLimit;
    var ordered := NewestFirst(stores);
    assert GetStores(param, stores).stores
        == ordered[Min(skip, |stores|)..Min(skip + PageLimit, |stores|)];
    Window(ordered, skip);
  }

  /** The window of at most four elements from position skip on. */
  lemma Window(s: seq<Catalog.Store>, skip: nat)
    ensures var w := s[Min(skip, |s|)..Min(skip + PageLimit, |s|)];
            && |w| == Max(0, Min(PageLimit, |s| - skip))
            && forall i :: 0 <= i < |w| ==> w[i] == s[skip + i]
  {
  }

  /** A valid page number redirects exactly when it lies beyond the last page,
      and then it redirects to the last page. Page 1 is never redirected, even
      when there are no stores. */
  lemma RedirectBeyondLastPage(param: PageParam, stores: seq<Catalog.Store>)
    requires param.Absent? || (param.Numeric? && param.value >= 1)
    ensures var r := GetStores(param, stores);
            && (r.RedirectToPage? <==> PageNumber(param) > PageCount(|stores|) && PageNumber(param) > 1)
            && (r.RedirectToPage? ==> r.target == PageCount(|stores|))
            && (PageNumber(param) == 1 ==> r.Render?)
  {
    var n := |stores|;
    var p := PageNumber(param);
    var pages := PageCount(n);
    if p > 1 {
      if p > pages {
        assert (p - 1) * PageLimit >= pages * PageLimit;
      } else {
        assert (p - 1) * PageLimit <= (pages - 1) * PageLimit;
      }
    }
  }

  /** The target of that redirect renders a non-empty page when there is at
      least one store. */
  lemma LastPageRenders(stores: seq<Catalog.Store>)
    requires |stores| > 0
    ensures var r := GetStores(Numeric(PageCount(|stores|)), stores);
            r.Render? && |r.stores| > 0
  {
  }

  /** With no stores at all, a page beyond the first redirects to page 0,
      which then redirects to page 1. */
  lemma EmptyCatalogRedirectChain(p: int)
    requires p > 1
    ensures GetStores(Numeric(p), []) == RedirectToPage(0)
    ensures GetStores(Numeric(0), []) == RedirectToFirst
  {
    assert Skip(p) > 0;
  }

  /** Ten stores make three pages: page 1 shows four, page 3 shows two, and
      page 4 redirects to page 3. */
  lemma TenStores(stores: seq<Catalog.Store>)
    requires |stores| == 10
    ensures PageCount(10) == 3
    ensures var r := GetStores(Absent, stores); r.Render? && |r.stores| == 4 && r.pages == 3
    ensures var r := GetStores(Numeric(3), stores); r.Render? && |r.stores| == 2
    ensures GetStores(Numeric(4), stores) == RedirectToPage(3)
  {
  }

  // ---------------------------------------------------------------------
  // confirmOwner
  // ---------------------------------------------------------------------

  const OwnershipMessage := "You must own a store in order to edit it!"

  /** The owner check: it fails, with the ownership error, exactly when the
      store's author is not the user. */
  function ConfirmOwner(store: Catalog.Store, user: Catalog.UserId): (r: Outcome)
    ensures r.Pass? <==> store.author == user
    ensures r.Fail? ==> r.error == OwnershipMessage
  {
    if store.author != user then Fail(OwnershipMessage) else Pass
  }

  // ---------------------------------------------------------------------
  // getStoresByTag
  // ---------------------------------------------------------------------

  /** The query `{ tags: tag || { $exists: true } }`: a missing or empty tag
      selects every store (every store has a tag array, possibly empty);
      otherwise the stores whose tags contain it. */
  predicate TagSelects(tag: Option<string>, s: Catalog.Store) {
    tag.None? || tag.value == "" || tag.value in s.tags
  }

  function StoresByTag(stores: seq<Catalog.Store>, tag: Option<string>): (r: seq<Catalog.Store>)
    ensures forall s :: multiset(r)[s] == if TagSelects(tag, s) then multiset(stores)[s] else 0
    ensures tag.Some? && tag.value != "" ==> forall s :: s in r <==> s in stores && tag.value in s.tags
    ensures tag.None? ==> r == stores
  {
    var r := Filter(stores, (s: Catalog.Store) => TagSelects(tag, s));
    FilterCounts(stores, (s: Catalog.Store) => TagSelects(tag, s));
    if tag.None? then
      FilterKeepsAll(stores, (s: Catalog.Store) => TagSelects(tag, s));
      r
    else r
  }

  // ---------------------------------------------------------------------
  // heartStore
  // ---------------------------------------------------------------------

  datatype HeartOp = PullOp | AddToSetOp

  /** `$pull` when the id is already a favourite, `$addToSet` otherwise. */
  function HeartOperator(hearts: seq<Catalog.StoreId>, id: Catalog.StoreId): (op: HeartOp)
    ensures op == PullOp <==> id in hearts
  {
    if id in hearts then PullOp else AddToSetOp
  }

  /** `$pull`: removes every occurrence of the id, keeping the rest in order. */
  function Pull(hearts: seq<Catalog.StoreId>, id: Catalog.StoreId): (r: seq<Catalog.StoreId>)
    ensures id !in r
    ensures forall x :: x != id ==> multiset(r)[x] == multiset(hearts)[x]
  {
    FilterCounts(hearts, (x: Catalog.StoreId) => x != id);
    Filter(hearts, (x: Catalog.StoreId) => x != id)
  }

  /** `$addToSet`: appends the id unless it is already present. */
  function AddToSet(hearts: seq<Catalog.StoreId>, id: Catalog.StoreId): (r: seq<Catalog.StoreId>)
    ensures id in r
    ensures multiset(r)[id] == Max(1, multiset(hearts)[id])
    ensures forall x :: x != id ==> multiset(r)[x] == multiset(hearts)[x]
  {
    if id in hearts then hearts else hearts + [id]
  }

  /** The update `{ [operator]: { hearts: id } }`: `$pull` leaves the id out,
      `$addToSet` puts it in, and no other id changes. */
  function ApplyHeart(op: HeartOp, hearts: seq<Catalog.StoreId>, id: Catalog.StoreId): (r: seq<Catalog.StoreId>)
    ensures id in r <==> op == AddToSetOp
    ensures forall x :: x != id ==> multiset(r)[x] == multiset(hearts)[x]
  {
    match op
    case PullOp => Pull(hearts, id)
    case AddToSetOp => AddToSet(hearts, id)
  }

  /** The heart list after one toggle. */
  function Toggle(hearts: seq<Catalog.StoreId>, id: Catalog.StoreId): (r: seq<Catalog.StoreId>)
    ensures id in r <==> id !in hearts
  {
    ApplyHeart(HeartOperator(hearts, id), hearts, id)
  }

  /** One toggle removes every occurrence of a present id, or adds an absent
      one exactly once at the end; no other id changes. */
  lemma ToggleEffect(hearts: seq<Catalog.StoreId>, id: Catalog.StoreId)
    ensures id in hearts ==> id !in Toggle(hearts, id)
    ensures id !in hearts ==> Toggle(hearts, id) == hearts + [id] && multiset(Toggle(hearts, id))[id] == 1
    ensures forall x :: x != id ==> multiset(Toggle(hearts, id))[x] == multiset(hearts)[x]
  {
  }

  /** Toggling twice from a list without the id restores the list. */
  lemma ToggleTwiceRestores(hearts: seq<Catalog.StoreId>, id: Catalog.StoreId)
    requires id !in hearts
    ensures Toggle(Toggle(hearts, id), id) == hearts
  {
    var p := (x: Catalog.StoreId) => x != id;
    assert Toggle(hearts, id) == hearts + [id];
    FilterAppend(hearts, [id], p);
    FilterKeepsAll(hearts, p);
    assert Filter([id], p) == [] by {
      assert [id][1..] == [];
    }
  }

  /** n is even, counted down one toggle at a time. */
  predicate Even(n: nat) {
    if n == 0 then true else !Even(n - 1)
  }

  /** The heart list after n toggles of the same id: the id is a favourite
      exactly when it was one before and n is even, or was not and n is odd. */
  function ToggleTimes(hearts: seq<Catalog.StoreId>, id: Catalog.StoreId, n: nat): (r: seq<Catalog.StoreId>)
    ensures id in r <==> (id in hearts <==> Even(n))
  {
    if n == 0 then hearts else Toggle(ToggleTimes(hearts, id, n - 1), id)
  }

  /** A user record with its list of favourite store ids. */
  class User {
    const id: Catalog.UserId
    var hearts: seq<Catalog.StoreId>

    constructor (id: Catalog.UserId, hearts: seq<Catalog.StoreId>)
      ensures this.id == id && this.hearts == hearts
    {
      this.id := id;
      this.hearts := hearts;
    }

    /** `heartStore`: chooses the operator from the current list and applies
        it to the stored list. */
    method HeartStore(storeId: Catalog.StoreId) returns (op: HeartOp)
      modifies this
      ensures op == HeartOperator(old(hearts), storeId)
      ensures hearts == Toggle(old(hearts), storeId)
    {
      op := if storeId in hearts then PullOp else AddToSetOp;
      hearts := ApplyHeart(op, hearts, storeId);
    }
  }

  // ---------------------------------------------------------------------
  // updateStore and the upload rules
  // ---------------------------------------------------------------------

  /** A GeoJSON location as submitted by the store form. */
  datatype Location = Location(kind: string, coordinates: seq<real>, address: string)

  datatype UploadedFile = UploadedFile(mimetype: string)

  const FiletypeMessage := "This filetype isn't allowed!"

  /** The upload filter: only image types are accepted. */
  function FileFilter(mimetype: string): (r: Outcome)
    ensures r.Pass? <==> |mimetype| >= 6 && mimetype[..6] == "image/"
    ensures r.Fail? ==> r.error == FiletypeMessage
  {
    if "image/" <= mimetype then Pass else Fail(FiletypeMessage)
  }

  /** JavaScript's `String.prototype.split` with a one-character separator. */
  function Split(s: string, sep: char): (r: seq<string>)
    ensures |r| >= 1
    ensures forall i :: 0 <= i < |r| ==> sep !in r[i]
  {
    if s == [] then [""]
    else
      var rest := Split(s[1..], sep);
      if s[0] == sep then [""] + rest
      else [[s[0]] + rest[0]] + rest[1..]
  }

  /** `Array.prototype.join` with a one-character separator. */
  function Join(parts: seq<string>, sep: char): string
    requires |parts| >= 1
  {
    if |parts| == 1 then parts[0] else parts[0] + [sep] + Join(parts[1..], sep)
  }

  /** Joining the parts of a split gives back the string. */
  lemma {:induction false} SplitJoin(s: string, sep: char)
    ensures Join(Split(s, sep), sep) == s
  {
    if s != [] {
      var rest := Split(s[1..], sep);
      SplitJoin(s[1..], sep);
      if s[0] == sep {
        assert Split(s, sep)[1..] == rest;
      } else {
        var r := Split(s, sep);
        if |rest| == 1 {
          assert r == [[s[0]] + rest[0]];
        } else {
          assert r[1..] == rest[1..];
          assert Join(rest, sep) == rest[0] + [sep] + Join(rest[1..], sep);
        }
      }
    }
  }

  /** The first piece of a split is the longest prefix without the
      separator. */
  lemma {:induction false} SplitFirst(s: string, sep: char)
    ensures var head := Split(s, sep)[0];
            head <= s && (|head| == |s| || s[|head|] == sep)
  {
    if s != [] && s[0] != sep {
      SplitFirst(s[1..], sep);
    }
  }

  /** A prefix without the separator followed by the separator splits off
      as the first piece. */
  lemma {:induction false} SplitAfterPrefix(a: string, b: string, sep: char)
    requires sep !in a
    ensures Split(a + [sep] + b, sep) == [a] + Split(b, sep)
  {
    if a == [] {
      assert ([sep] + b)[1..] == b;
    } else {
      assert (a + [sep] + b)[1..] == a[1..] + [sep] + b;
      SplitAfterPrefix(a[1..], b, sep);
      assert [a[0]] + a[1..] == a;
    }
  }

  /** `mimetype.split('/')[1]`, which is `undefined` when there is no '/'. */
  function Extension(mimetype: string): (r: string)
    ensures '/' !in r
  {
    var parts := Split(mimetype, '/');
    if |parts| > 1 then parts[1] else "undefined"
  }

  /** The photo file name: the uuid, a dot and the extension. */
  function PhotoFilename(uuid: string, mimetype: string): string {
    uuid + "." + Extension(mimetype)
  }

  /** For an accepted upload the extension is the media subtype: the text
      after "image/" up to the next '/' or the end. */
  lemma AcceptedExtension(mimetype: string)
    requires FileFilter(mimetype).Pass?
    ensures var e := Extension(mimetype);
            && '/' !in e
            && "image/" + e <= mimetype
            && (|mimetype| == 6 + |e| || mimetype[6 + |e|] == '/')
  {
    var rest := mimetype[6..];
    assert mimetype == "image" + ['/'] + rest;
    SplitAfterPrefix("image", rest, '/');
    SplitFirst(rest, '/');
    assert Extension(mimetype) == Split(rest, '/')[0];
  }

  /** A string without the separator is a single piece. */
  lemma {:induction false} SplitWithoutSeparator(s: string, sep: char)
    requires sep !in s
    ensures Split(s, sep) == [s]
  {
    if s != [] {
      SplitWithoutSeparator(s[1..], sep);
      assert [s[0]] + s[1..] == s;
    }
  }

  /** So an upload of type `image/<subtype>` is stored as `<uuid>.<subtype>`,
      for instance `image/jpeg` as `<uuid>.jpeg`. */
  lemma SubtypeFilename(uuid: string, subtype: string)
    requires '/' !in subtype
    ensures PhotoFilename(uuid, "image/" + subtype) == uuid + "." + subtype
  {
    assert "image/" + subtype == "image" + ['/'] + subtype;
    SplitAfterPrefix("image", subtype, '/');
    SplitWithoutSeparator(subtype, '/');
  }

  /** The submitted store form (`req.body`), as far as the controller
      changes it. */
  class StoreForm {
    var location: Option<Location>
    var photo: Option<string>

    constructor (location: Option<Location>, photo: Option<string>)
      ensures this.location == location && this.photo == photo
    {
      this.location := location;
      this.photo := photo;
    }

    /** `updateStore` sets the location type to "Point" whatever was
        submitted; without a location in the body the assignment throws
        (`ok` is false) and nothing changes. */
    method ForcePointType() returns (ok: bool)
      modifies this
      ensures ok <==> old(location).Some?
      ensures ok ==> location == Some(old(location).value.(kind := "Point"))
      ensures !ok ==> location == old(location)
      ensures photo == old(photo)
    {
      if location.None? {
        return false;
      }
      location := Some(location.value.(kind := "Point"));
      return true;
    }

    /** `resize`: without a file nothing changes; otherwise the photo name is
        the uuid with the extension taken from the mimetype. */
    method Resize(file: Option<UploadedFile>, uuid: string)
      modifies this
      ensures file.None? ==> photo == old(photo)
      ensures file.Some? ==> photo == Some(PhotoFilename(uuid, file.value.mimetype))
      ensures location == old(location)
    {
      if file.None? {
        return;
      }
      var extension := Extension(file.value.mimetype);
      photo := Some(uuid + "." + extension);
    }
  }
}
