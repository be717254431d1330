/**
 * The saved-meme collection: an ordered list of records held in memory and
 * mirrored under one key of a persistent key/value store.
 *
 * Each mutating operation computes its next list with a pure expression
 * (prepend, filter, map), assigns it to memory, and only then writes the whole
 * list to the store. A failed write is reported to the caller but memory keeps
 * the new list: there is no rollback. Loading sorts the stored records by
 * creation time, newest first.
 */
module MemeContext {
  import opened Wrappers

  /** A saved meme. `createdAt` and `updatedAt` are timestamps (the store keeps
      them as ISO date text; only their order matters here). `updatedAt` is
      absent until the record has been edited. */
  datatype Meme = Meme(
    id: string,
    imageUri: string,
    memeUri: string,
    topText: string,
    bottomText: string,
    createdAt: int,
    isFavorite: bool,
    fontFamily: Option<string>,
    textColor: Option<string>,
    updatedAt: Option<int>)

  // ---------------------------------------------------------------------------
  // Next-list computations
  // ---------------------------------------------------------------------------

  /** `memes.filter(meme => meme.id !== id)`. */
  function Without(ms: seq<Meme>, id: string): (r: seq<Meme>)
    ensures forall m :: m in r <==> m in ms && m.id != id
    ensures |r| == |ms| <==> forall k :: 0 <= k < |ms| ==> ms[k].id != id
    ensures |r| <= |ms|
  {
    if ms == [] then []
    else if ms[0].id != id then [ms[0]] + Without(ms[1..], id)
    else Without(ms[1..], id)
  }

  /** `memes.map(meme => meme.id === u.id ? u : meme)`. */
  function Replaced(ms: seq<Meme>, u: Meme): (r: seq<Meme>)
    ensures |r| == |ms|
    ensures forall k :: 0 <= k < |ms| && ms[k].id == u.id ==> r[k] == u
    ensures forall k :: 0 <= k < |ms| && ms[k].id != u.id ==> r[k] == ms[k]
  {
    if ms == [] then []
    else [if ms[0].id == u.id then u else ms[0]] + Replaced(ms[1..], u)
  }

  /** `memes.map(meme => meme.id === id ? { ...meme, isFavorite: !meme.isFavorite } : meme)`. */
  function Toggled(ms: seq<Meme>, id: string): (r: seq<Meme>)
    ensures |r| == |ms|
    ensures forall k :: 0 <= k < |ms| ==> r[k].(isFavorite := ms[k].isFavorite) == ms[k]
    ensures forall k :: 0 <= k < |ms| ==> (r[k].isFavorite != ms[k].isFavorite <==> ms[k].id == id)
  {
    if ms == [] then []
    else
      var head := if ms[0].id == id then ms[0].(isFavorite := !ms[0].isFavorite) else ms[0];
      [head] + Toggled(ms[1..], id)
  }

  /** Newest first: no record is preceded by an older one. */
  predicate SortedDesc(ms: seq<Meme>) {
    forall i, j :: 0 <= i < j < |ms| ==> ms[i].createdAt >= ms[j].createdAt
  }

  /** Every id occurs at most once. */
  predicate UniqueIds(ms: seq<Meme>) {
    forall i, j :: 0 <= i < j < |ms| ==> ms[i].id != ms[j].id
  }

  /** The tail of a sorted list is sorted, and its head is at least as new as
      every record of the tail. */
  lemma SortedTail(ms: seq<Meme>)
    requires SortedDesc(ms) && ms != []
    ensures SortedDesc(ms[1..])
    ensures forall x :: x in ms ==> x.createdAt <= ms[0].createdAt
  {
    assert forall j :: 0 <= j < |ms[1..]| ==> ms[1..][j] == ms[j + 1];
  }

  /** A record at least as new as every record of a sorted list can lead it. */
  lemma SortedCons(x: Meme, ms: seq<Meme>)
    requires SortedDesc(ms)
    requires forall y :: y in ms ==> y.createdAt <= x.createdAt
    ensures SortedDesc([x] + ms)
  {
    var r := [x] + ms;
    forall i, j | 0 <= i < j < |r| ensures r[i].createdAt >= r[j].createdAt {
      assert r[j] == ms[j - 1];
      if i > 0 {
        assert r[i] == ms[i - 1];
      }
    }
  }

  /** Places `m` in front of the first record that is not newer than it. */
  function InsertDesc(m: Meme, ms: seq<Meme>): (r: seq<Meme>)
    ensures multiset(r) == multiset(ms) + multiset{m}
    ensures SortedDesc(ms) ==> SortedDesc(r)
  {
    if ms == [] || m.createdAt >= ms[0].createdAt then
      assert SortedDesc(ms) ==> SortedDesc([m] + ms) by {
        if SortedDesc(ms) && ms != [] {
          SortedTail(ms);
          SortedCons(m, ms);
        }
      }
      [m] + ms
    else
      var rest := InsertDesc(m, ms[1..]);
      assert ms == [ms[0]] + ms[1..];
      assert SortedDesc(ms) ==> SortedDesc([ms[0]] + rest) by {
        if SortedDesc(ms) {
          SortedTail(ms);
          forall y | y in rest ensures y.createdAt <= ms[0].createdAt {
            assert y in multiset(rest);
          }
          SortedCons(ms[0], rest);
        }
      }
      [ms[0]] + rest
  }

  /** The comparator sort of `loadMemes`: newest first, records with equal
      timestamps kept in their stored order (the sort is stable). */
  function SortByCreatedDesc(ms: seq<Meme>): (r: seq<Meme>)
    ensures SortedDesc(r)
    ensures multiset(r) == multiset(ms)
  {
    if ms == [] then []
    else
      assert ms == [ms[0]] + ms[1..];
      InsertDesc(ms[0], SortByCreatedDesc(ms[1..]))
  }

  /** The records created at time `t`, in list order. */
  function AtTime(ms: seq<Meme>, t: int): seq<Meme> {
    if ms == [] then []
    else (if ms[0].createdAt == t then [ms[0]] else []) + AtTime(ms[1..], t)
  }

  // ---------------------------------------------------------------------------
  // Properties of the next-list computations
  // ---------------------------------------------------------------------------

  /** Filtering is compositional: records on either side of a split keep their
      relative order. */
  lemma {:induction false} WithoutAppend(a: seq<Meme>, b: seq<Meme>, id: string)
    ensures Without(a + b, id) == Without(a, id) + Without(b, id)
  {
    if a == [] {
      assert a + b == b;
    } else {
      assert (a + b)[1..] == a[1..] + b;
      WithoutAppend(a[1..], b, id);
    }
  }

  /** Deleting twice is deleting once. */
  lemma {:induction false} WithoutIdempotent(ms: seq<Meme>, id: string)
    ensures Without(Without(ms, id), id) == Without(ms, id)
  {
    if ms != [] {
      WithoutIdempotent(ms[1..], id);
    }
  }

  /** Deleting an id that no record carries leaves the list as it is. */
  lemma {:induction false} WithoutNoMatch(ms: seq<Meme>, id: string)
    requires forall k :: 0 <= k < |ms| ==> ms[k].id != id
    ensures Without(ms, id) == ms
  {
    if ms != [] {
      WithoutNoMatch(ms[1..], id);
    }
  }

  /** Deleting keeps the list sorted. */
  lemma {:induction false} WithoutKeepsSorted(ms: seq<Meme>, id: string)
    requires SortedDesc(ms)
    ensures SortedDesc(Without(ms, id))
  {
    if ms != [] {
      SortedTail(ms);
      WithoutKeepsSorted(ms[1..], id);
      if ms[0].id != id {
        SortedCons(ms[0], Without(ms[1..], id));
      }
    }
  }

  /** A record whose id no record of a list carries can lead it, and the
      tail of a list with unique ids has unique ids and lacks the head's id. */
  lemma UniqueCons(x: Meme, ms: seq<Meme>)
    ensures UniqueIds([x] + ms) <==> UniqueIds(ms) && forall y :: y in ms ==> y.id != x.id
  {
    var r := [x] + ms;
    assert forall j :: 0 <= j < |ms| ==> r[j + 1] == ms[j];
    if UniqueIds(ms) && forall y :: y in ms ==> y.id != x.id {
      forall i, j | 0 <= i < j < |r| ensures r[i].id != r[j].id {
        assert r[j] == ms[j - 1];
        if i > 0 {
          assert r[i] == ms[i - 1];
        }
      }
    }
    if UniqueIds(r) {
      forall y | y in ms ensures y.id != x.id {
        var j :| 0 <= j < |ms| && ms[j] == y;
        assert r[0] == x && r[j + 1] == y;
        assert r[0].id != r[j + 1].id;
      }
    }
  }

  /** Deleting keeps the ids unique. */
  lemma {:induction false} WithoutKeepsUnique(ms: seq<Meme>, id: string)
    requires UniqueIds(ms)
    ensures UniqueIds(Without(ms, id))
  {
    if ms != [] {
      assert ms == [ms[0]] + ms[1..];
      UniqueCons(ms[0], ms[1..]);
      WithoutKeepsUnique(ms[1..], id);
      if ms[0].id != id {
        UniqueCons(ms[0], Without(ms[1..], id));
      }
    }
  }

  /** Replacing with a record whose id matches nothing leaves the list as it is. */
  lemma ReplacedNoMatch(ms: seq<Meme>, u: Meme)
    requires forall k :: 0 <= k < |ms| ==> ms[k].id != u.id
    ensures Replaced(ms, u) == ms
  {
  }

  /** Replacing twice with the same record is replacing once. */
  lemma ReplacedIdempotent(ms: seq<Meme>, u: Meme)
    ensures Replaced(Replaced(ms, u), u) == Replaced(ms, u)
  {
  }

  /** Replacing keeps every id in place and the ids distinct, whatever the
      replacement; it keeps the list sorted as long as the replacement carries
      the creation time of the records it replaces. */
  lemma ReplacedKeepsInvariants(ms: seq<Meme>, u: Meme)
    ensures forall k :: 0 <= k < |ms| ==> Replaced(ms, u)[k].id == ms[k].id
    ensures UniqueIds(ms) ==> UniqueIds(Replaced(ms, u))
    ensures (SortedDesc(ms) && forall k :: 0 <= k < |ms| && ms[k].id == u.id ==> ms[k].createdAt == u.createdAt) ==>
              SortedDesc(Replaced(ms, u))
  {
    var r := Replaced(ms, u);
    assert forall k :: 0 <= k < |ms| ==> r[k].id == ms[k].id;
    if forall k :: 0 <= k < |ms| && ms[k].id == u.id ==> ms[k].createdAt == u.createdAt {
      assert forall k :: 0 <= k < |ms| ==> r[k].createdAt == ms[k].createdAt;
    }
  }

  /** Toggling the same id twice restores the original list. */
  lemma {:induction false} ToggledInvolution(ms: seq<Meme>, id: string)
    ensures Toggled(Toggled(ms, id), id) == ms
  {
    if ms != [] {
      ToggledInvolution(ms[1..], id);
    }
  }

  /** Toggling keeps the list sorted and its ids unique. */
  lemma ToggledKeepsInvariants(ms: seq<Meme>, id: string)
    ensures SortedDesc(ms) ==> SortedDesc(Toggled(ms, id))
    ensures UniqueIds(ms) ==> UniqueIds(Toggled(ms, id))
  {
    var r := Toggled(ms, id);
    assert forall k :: 0 <= k < |ms| ==> r[k].createdAt == ms[k].createdAt && r[k].id == ms[k].id by {
      forall k | 0 <= k < |ms| ensures r[k].createdAt == ms[k].createdAt && r[k].id == ms[k].id {
        assert r[k].(isFavorite := ms[k].isFavorite) == ms[k];
      }
    }
  }

  /** Saving never re-sorts: the prepended list stays sorted exactly when the
      new record is at least as new as the current head. */
  lemma SavedKeepsSorted(m: Meme, ms: seq<Meme>)
    requires SortedDesc(ms)
    ensures SortedDesc([m] + ms) <==> (ms == [] || m.createdAt >= ms[0].createdAt)
  {
    if ms != [] && SortedDesc([m] + ms) {
      assert ([m] + ms)[0] == m && ([m] + ms)[1] == ms[0];
    }
    if ms != [] && m.createdAt >= ms[0].createdAt {
      forall i, j | 0 <= i < j < |[m] + ms| ensures ([m] + ms)[i].createdAt >= ([m] + ms)[j].createdAt {
        if i == 0 {
          assert ms[0].createdAt >= ms[j - 1].createdAt;
        }
      }
    }
  }

  /** Inserting into a sorted list puts `m` ahead of every record with the same
      timestamp. */
  lemma {:induction false} InsertDescAtTime(m: Meme, ms: seq<Meme>, t: int)
    requires SortedDesc(ms)
    ensures AtTime(InsertDesc(m, ms), t) == (if m.createdAt == t then [m] else []) + AtTime(ms, t)
  {
    if ms == [] || m.createdAt >= ms[0].createdAt {
      assert ([m] + ms)[1..] == ms;
    } else {
      var r := InsertDesc(m, ms);
      var rest := InsertDesc(m, ms[1..]);
      assert r == [ms[0]] + rest;
      assert r[1..] == rest;
      InsertDescAtTime(m, ms[1..], t);
    }
  }

  /** The sort is stable: for every timestamp, the records carrying it appear
      in the same relative order before and after sorting. */
  lemma {:induction false} SortStable(ms: seq<Meme>, t: int)
    ensures AtTime(SortByCreatedDesc(ms), t) == AtTime(ms, t)
  {
    if ms != [] {
      SortStable(ms[1..], t);
      InsertDescAtTime(ms[0], SortByCreatedDesc(ms[1..]), t);
    }
  }

  /** A list that is already newest-first is returned unchanged by the sort, so
      reloading what was written gives back the same list. */
  lemma {:induction false} SortSortedIdentity(ms: seq<Meme>)
    requires SortedDesc(ms)
    ensures SortByCreatedDesc(ms) == ms
  {
    if ms != [] {
      SortSortedIdentity(ms[1..]);
      assert ms == [ms[0]] + ms[1..];
    }
  }

  // ---------------------------------------------------------------------------
  // The provider
  // ---------------------------------------------------------------------------

  /** How a mutating operation ends: its write resolved, or the storage error
      was rethrown to the caller. */
  datatype Outcome = Written | WriteFailed

  /** The collection provider: `memes` is the in-memory state, `stored` the
      value under the single key `saved_memes` (absent, or a serialised list). Every storage
      call's success or failure is a parameter. */
  class MemeProvider {
    var memes: seq<Meme>
    var stored: Option<seq<Meme>>

    /** Memory starts empty; the store holds whatever a previous run left. */
    constructor (persisted: Option<seq<Meme>>)
      ensures memes == [] && stored == persisted
    {
      memes := [];
      stored := persisted;
    }

    /** Reads the key; a present value replaces memory, sorted newest first.
        An absent value, or a read or parse error (logged, not rethrown),
        leaves memory as it was. */
    method LoadMemes(readFails: bool)
      modifies this`memes
      ensures memes == if !readFails && stored.Some? then SortByCreatedDesc(stored.value) else old(memes)
    {
      if readFails {
        return;
      }
      if stored.Some? {
        memes := SortByCreatedDesc(stored.value);
      }
    }

    /** Writes the whole list under the key; a failed write is rethrown. */
    method SaveMemes(list: seq<Meme>, writeOk: bool) returns (r: Outcome)
      modifies this`stored
      ensures r == if writeOk then Written else WriteFailed
      ensures stored == if writeOk then Some(list) else old(stored)
    {
      if writeOk {
        stored := Some(list);
        r := Written;
      } else {
        r := WriteFailed;
      }
    }

    /** Prepends a new record. */
    method SaveMeme(m: Meme, writeOk: bool) returns (r: Outcome)
      modifies this
      ensures memes == [m] + old(memes)
      ensures r == if writeOk then Written else WriteFailed
      ensures stored == if writeOk then Some(memes) else old(stored)
    {
      var updated := [m] + memes;
      memes := updated;
      r := SaveMemes(updated, writeOk);
    }

    /** Removes every record with the given id. */
    method DeleteMeme(id: string, writeOk: bool) returns (r: Outcome)
      modifies this
      ensures memes == Without(old(memes), id)
      ensures r == if writeOk then Written else WriteFailed
      ensures stored == if writeOk then Some(memes) else old(stored)
    {
      var updated := Without(memes, id);
      memes := updated;
      r := SaveMemes(updated, writeOk);
    }

    /** Replaces every record whose id matches the updated one. */
    method UpdateMeme(u: Meme, writeOk: bool) returns (r: Outcome)
      modifies this
      ensures memes == Replaced(old(memes), u)
      ensures r == if writeOk then Written else WriteFailed
      ensures stored == if writeOk then Some(memes) else old(stored)
    {
      var updated := Replaced(memes, u);
      memes := updated;
      r := SaveMemes(updated, writeOk);
    }

    /** Flips the favourite flag of every record with the given id. */
    method ToggleFavorite(id: string, writeOk: bool) returns (r: Outcome)
      modifies this
      ensures memes == Toggled(old(memes), id)
      ensures r == if writeOk then Written else WriteFailed
      ensures stored == if writeOk then Some(memes) else old(stored)
    {
      var updated := Toggled(memes, id);
      memes := updated;
      r := SaveMemes(updated, writeOk);
    }

    /** Empties memory and removes the key (it does not store an empty list). */
    method ClearAllMemes(removeOk: bool) returns (r: Outcome)
      modifies this
      ensures memes == []
      ensures r == if removeOk then Written else WriteFailed
      ensures stored == if removeOk then None else old(stored)
    {
      memes := [];
      if removeOk {
        stored := None;
        r := Written;
      } else {
        r := WriteFailed;
      }
    }

    /** Pull-to-refresh: the same as loading. */
    method RefreshMemes(readFails: bool)
      modifies this`memes
      ensures memes == if !readFails && stored.Some? then SortByCreatedDesc(stored.value) else old(memes)
    {
      LoadMemes(readFails);
    }
  }

  // ---------------------------------------------------------------------------
  // Restart scenarios: a fresh provider over what a previous one left behind.
  // Mounting is `new` followed by `LoadMemes`, as the provider's mount effect
  // loads once.
  // ---------------------------------------------------------------------------

  /** A record at least as new as every record of a collection, put in front
      of the sorted collection, survives a second sort unchanged. */
  lemma NewestAheadOfSorted(ms: seq<Meme>, m: Meme)
    requires forall y :: y in ms ==> y.createdAt <= m.createdAt
    ensures SortByCreatedDesc([m] + SortByCreatedDesc(ms)) == [m] + SortByCreatedDesc(ms)
  {
    var sorted := SortByCreatedDesc(ms);
    forall y | y in sorted ensures y.createdAt <= m.createdAt {
      assert y in multiset(sorted);
    }
    SortedCons(m, sorted);
    SortSortedIdentity([m] + sorted);
  }

  /** Mounting over any stored collection, saving a record at least as new as
      every stored one and restarting: memory holds the new record ahead of the
      loaded (sorted) list, and the restart loads back exactly that list. */
  method ReloadAfterSave(ms: seq<Meme>, m: Meme) returns (memory: seq<Meme>, reloaded: seq<Meme>)
    requires forall y :: y in ms ==> y.createdAt <= m.createdAt
    ensures memory == [m] + SortByCreatedDesc(ms)
    ensures reloaded == memory
  {
    var p := new MemeProvider(Some(ms));
    p.LoadMemes(false);
    var _ := p.SaveMeme(m, true);
    memory := p.memes;
    var q := new MemeProvider(p.stored);
    q.LoadMemes(false);
    reloaded := q.memes;
    NewestAheadOfSorted(ms, m);
  }

  /** After clearing, a restart loads nothing: the key is gone, so memory stays
      empty. */
  method ReloadAfterClear(persisted: Option<seq<Meme>>) returns (reloaded: seq<Meme>)
    ensures reloaded == []
  {
    var p := new MemeProvider(persisted);
    p.LoadMemes(false);
    var _ := p.ClearAllMemes(true);
    var q := new MemeProvider(p.stored);
    q.LoadMemes(false);
    reloaded := q.memes;
  }

  /** Mounting over a stored collection and then updating with a failed
      write: memory holds the update of the loaded list while the store keeps
      the collection exactly as it was, unsorted if it was unsorted. */
  method UpdateWriteFails(ms: seq<Meme>, u: Meme) returns (inMemory: seq<Meme>, inStore: Option<seq<Meme>>)
    ensures inMemory == Replaced(SortByCreatedDesc(ms), u)
    ensures inStore == Some(ms)
  {
    var p := new MemeProvider(Some(ms));
    p.LoadMemes(false);
    var _ := p.UpdateMeme(u, false);
    inMemory, inStore := p.memes, p.stored;
  }
}
