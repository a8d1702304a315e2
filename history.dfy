/** The search history of the property search screen: a list of past
    searches, newest first, at most `Capacity` long, with at most one entry
    per (tipo, ciudad) pair when it is built by `AddSearch` alone. The list is
    one state cell that every operation replaces by a new list; the copy kept
    in the browser's storage follows it after every change. */
module History {
  import opened Seqs

  datatype Option<T> = None | Some(value: T)

  /** The largest number of entries the history keeps. */
  const Capacity: nat := 10

  /** One past search. `P` stands for a property listing and `R` for a
      client-suggestion response; the history never looks inside either. */
  datatype Entry<P, R> = Entry(
    tipo: string,
    ciudad: string,
    date: string,
    id: string,
    properties: Option<seq<P>>,
    selectedProperty: Option<P>,
    clientSuggestions: Option<R>)
  {
    /** The entry belongs to the search for property type `t` in city `c`;
        both strings are compared exactly, with no case folding. */
    predicate HasPair(t: string, c: string) {
      PairOf(this) == (t, c)
    }
  }

  /** The (tipo, ciudad) pair that identifies a search. */
  function PairOf<P, R>(e: Entry<P, R>): (string, string) {
    (e.tipo, e.ciudad)
  }

  function IdOf<P, R>(e: Entry<P, R>): string {
    e.id
  }

  /** The shape the history keeps when every change goes through the
      operations below: within capacity, one entry per search pair. */
  ghost predicate WellFormed<P, R>(h: seq<Entry<P, R>>) {
    |h| <= Capacity && DistinctKeys(h, PairOf)
  }

  // ---------------------------------------------------------------------
  // Adding a search

  /** The history after recording search `e`: every earlier entry for the
      same pair is dropped, `e` goes in front, and the list is cut to
      `Capacity` entries. */
  function Added<P, R>(h: seq<Entry<P, R>>, e: Entry<P, R>): (r: seq<Entry<P, R>>)
    ensures 1 <= |r| <= Capacity && r[0] == e
    ensures forall i :: 1 <= i < |r| ==> PairOf(r[i]) != PairOf(e)
    ensures r[1..] == Take(Exclude(h, PairOf, PairOf(e)), Capacity - 1)
  {
    TakeCons(e, Exclude(h, PairOf, PairOf(e)), Capacity - 1);
    Take([e] + Exclude(h, PairOf, PairOf(e)), Capacity)
  }

  /** Recording a search whose pair is already present replaces the old
      entry rather than adding one: the list does not grow. */
  lemma AddedReplacesDuplicate<P, R>(h: seq<Entry<P, R>>, e: Entry<P, R>, prev: Entry<P, R>)
    requires prev in h && PairOf(prev) == PairOf(e)
    ensures |Added(h, e)| <= |h|
    ensures prev != e ==> prev !in Added(h, e)
  {
    ExcludeNoMatch(h, PairOf, PairOf(e));
  }

  /** With a full history and a new pair, the oldest entry falls off the
      end: the result is the new entry followed by the first nine old ones,
      and when ids are distinct the evicted entry's id is gone. */
  lemma AddedEvictsOldest<P, R>(h: seq<Entry<P, R>>, e: Entry<P, R>)
    requires |h| == Capacity
    requires forall x :: x in h ==> PairOf(x) != PairOf(e)
    ensures Added(h, e) == [e] + h[..Capacity - 1]
    ensures DistinctKeys(h, IdOf) && e.id != h[Capacity - 1].id ==>
              forall x :: x in Added(h, e) ==> x.id != h[Capacity - 1].id
  {
    ExcludeNoMatch(h, PairOf, PairOf(e));
    var r := Added(h, e);
    assert r == [e] + h[..Capacity - 1];
    if DistinctKeys(h, IdOf) && e.id != h[Capacity - 1].id {
      forall x | x in r
        ensures x.id != h[Capacity - 1].id
      {
        var i :| 0 <= i < |r| && r[i] == x;
        if i > 0 {
          assert x == h[i - 1];
          assert IdOf(h[i - 1]) != IdOf(h[Capacity - 1]);
        }
      }
    }
  }

  /** Recording the same search twice leaves exactly what recording it once,
      with the second entry, would have: the first entry leaves no trace. */
  lemma {:induction false} AddedTwice<P, R>(h: seq<Entry<P, R>>, e1: Entry<P, R>, e2: Entry<P, R>)
    requires PairOf(e1) == PairOf(e2)
    ensures Added(Added(h, e1), e2) == Added(h, e2)
  {
    var p := PairOf(e1);
    var x := Exclude(h, PairOf, p);
    var t := Take(x, Capacity - 1);
    TakeCons(e1, x, Capacity - 1);
    assert Added(h, e1) == [e1] + t;
    assert ([e1] + t)[1..] == t;
    assert Exclude([e1] + t, PairOf, p) == Exclude(t, PairOf, p);
    forall y | y in t
      ensures PairOf(y) != p
    {
      var i :| 0 <= i < |t| && t[i] == y;
      assert y == x[i];
    }
    ExcludeNoMatch(t, PairOf, p);
    TakeCons(e2, t, Capacity - 1);
    TakeCons(e2, x, Capacity - 1);
    assert Take(t, Capacity - 1) == t;
  }

  /** Adding keeps the history well formed. */
  lemma AddedWellFormed<P, R>(h: seq<Entry<P, R>>, e: Entry<P, R>)
    requires WellFormed(h)
    ensures WellFormed(Added(h, e))
  {
    var x := Exclude(h, PairOf, PairOf(e));
    ExcludeKeepsDistinct(h, PairOf, PairOf(e), PairOf);
    ConsDistinct(e, x, PairOf);
    TakeKeepsDistinct([e] + x, Capacity, PairOf);
  }

  // ---------------------------------------------------------------------
  // Attaching client suggestions

  /** The entry with `selectedProperty` and `clientSuggestions` overwritten
      when it belongs to search (t, c), and the entry itself otherwise. */
  function Refreshed<P, R>(e: Entry<P, R>, t: string, c: string, sp: P, cs: R): (r: Entry<P, R>)
    ensures r.tipo == e.tipo && r.ciudad == e.ciudad && r.date == e.date &&
            r.id == e.id && r.properties == e.properties
    ensures e.HasPair(t, c) ==> r.selectedProperty == Some(sp) && r.clientSuggestions == Some(cs)
    ensures !e.HasPair(t, c) ==> r == e
  {
    if e.HasPair(t, c) then e.(selectedProperty := Some(sp), clientSuggestions := Some(cs)) else e
  }

  /** The history after suggestions `cs` for property `sp` arrive for search
      (t, c): every entry of that search is updated where it stands, and no
      other field of any entry changes. */
  function WithClientSuggestions<P, R>(h: seq<Entry<P, R>>, t: string, c: string, sp: P, cs: R): (r: seq<Entry<P, R>>)
    ensures |r| == |h|
    ensures forall i :: 0 <= i < |h| ==>
              r[i].tipo == h[i].tipo && r[i].ciudad == h[i].ciudad && r[i].date == h[i].date &&
              r[i].id == h[i].id && r[i].properties == h[i].properties
    ensures forall i :: 0 <= i < |h| && h[i].HasPair(t, c) ==>
              r[i].selectedProperty == Some(sp) && r[i].clientSuggestions == Some(cs)
    ensures forall i :: 0 <= i < |h| && !h[i].HasPair(t, c) ==> r[i] == h[i]
  {
    if h == [] then [] else [Refreshed(h[0], t, c, sp, cs)] + WithClientSuggestions(h[1..], t, c, sp, cs)
  }

  /** Suggestions for a search that is not in the history change nothing. */
  lemma WithClientSuggestionsNoMatch<P, R>(h: seq<Entry<P, R>>, t: string, c: string, sp: P, cs: R)
    requires forall x :: x in h ==> !x.HasPair(t, c)
    ensures WithClientSuggestions(h, t, c, sp, cs) == h
  {
    var r := WithClientSuggestions(h, t, c, sp, cs);
    forall i | 0 <= i < |h|
      ensures r[i] == h[i]
    {
      assert h[i] in h;
    }
  }

  /** Delivering the same suggestions twice is the same as once. */
  lemma WithClientSuggestionsIdempotent<P, R>(h: seq<Entry<P, R>>, t: string, c: string, sp: P, cs: R)
    ensures WithClientSuggestions(WithClientSuggestions(h, t, c, sp, cs), t, c, sp, cs)
         == WithClientSuggestions(h, t, c, sp, cs)
  {
    var r1 := WithClientSuggestions(h, t, c, sp, cs);
    var r2 := WithClientSuggestions(r1, t, c, sp, cs);
    forall i | 0 <= i < |h|
      ensures r2[i] == r1[i]
    {
      if h[i].HasPair(t, c) {
        assert r1[i].HasPair(t, c);
      }
    }
  }

  /** Attaching suggestions keeps the history well formed. */
  lemma WithClientSuggestionsWellFormed<P, R>(h: seq<Entry<P, R>>, t: string, c: string, sp: P, cs: R)
    requires WellFormed(h)
    ensures WellFormed(WithClientSuggestions(h, t, c, sp, cs))
  {
    var r := WithClientSuggestions(h, t, c, sp, cs);
    forall i, j | 0 <= i < j < |r|
      ensures PairOf(r[i]) != PairOf(r[j])
    {
      assert PairOf(r[i]) == PairOf(h[i]) && PairOf(r[j]) == PairOf(h[j]);
    }
  }

  // ---------------------------------------------------------------------
  // Removing an entry

  /** The history after the entry with id `id` is removed: every entry with
      that id goes, the others stay in their order. */
  function WithoutId<P, R>(h: seq<Entry<P, R>>, id: string): (r: seq<Entry<P, R>>)
    ensures forall x :: x in r ==> x in h && x.id != id
    ensures forall x :: x in h && x.id != id ==> x in r
  {
    Exclude(h, IdOf, id)
  }

  /** Removing an id is a no-op exactly when no entry carries it. */
  lemma WithoutIdNoMatch<P, R>(h: seq<Entry<P, R>>, id: string)
    ensures WithoutId(h, id) == h <==> forall x :: x in h ==> x.id != id
  {
    ExcludeNoMatch(h, IdOf, id);
  }

  /** Removing keeps the order of the entries that stay, part by part. */
  lemma WithoutIdAppend<P, R>(a: seq<Entry<P, R>>, b: seq<Entry<P, R>>, id: string)
    ensures WithoutId(a + b, id) == WithoutId(a, id) + WithoutId(b, id)
  {
    ExcludeAppend(a, b, IdOf, id);
  }

  /** Removing keeps the history well formed. */
  lemma WithoutIdWellFormed<P, R>(h: seq<Entry<P, R>>, id: string)
    requires WellFormed(h)
    ensures WellFormed(WithoutId(h, id))
  {
    ExcludeKeepsDistinct(h, IdOf, id, PairOf);
  }

  // ---------------------------------------------------------------------
  // The state cell

  /** The history as the search screen holds it: `entries` is the state cell,
      `stored` is the copy saved under the storage key after each change. */
  class SearchHistory<P, R> {
    var entries: seq<Entry<P, R>>
    var stored: seq<Entry<P, R>>

    ghost predicate Valid()
      reads this
    {
      stored == entries
    }

    /** Loads the history from storage: the saved list when there is one
        (`saved` is that list, already parsed), the empty list otherwise;
        the loaded list is then written back. */
    constructor (saved: Option<seq<Entry<P, R>>>)
      ensures Valid()
      ensures entries == if saved.Some? then saved.value else []
    {
      entries := if saved.Some? then saved.value else [];
      stored := entries;
    }

    /** Records a finished search. Date and id come from the clock. */
    method AddSearch(tipo: string, ciudad: string, date: string, id: string,
                     properties: Option<seq<P>>, selectedProperty: Option<P>, clientSuggestions: Option<R>)
      modifies this
      ensures Valid()
      ensures entries == Added(old(entries), Entry(tipo, ciudad, date, id, properties, selectedProperty, clientSuggestions))
      ensures WellFormed(old(entries)) ==> WellFormed(entries)
    {
      var newSearch := Entry(tipo, ciudad, date, id, properties, selectedProperty, clientSuggestions);
      if WellFormed(entries) {
        AddedWellFormed(entries, newSearch);
      }
      entries := Added(entries, newSearch);
      stored := entries;
    }

    /** Attaches the suggestions fetched for `selectedProperty` to every entry
        of search (tipo, ciudad). */
    method UpdateWithClientSuggestions(tipo: string, ciudad: string, selectedProperty: P, clientSuggestions: R)
      modifies this
      ensures Valid()
      ensures entries == WithClientSuggestions(old(entries), tipo, ciudad, selectedProperty, clientSuggestions)
      ensures (forall x :: x in old(entries) ==> !x.HasPair(tipo, ciudad)) ==> entries == old(entries)
      ensures WellFormed(old(entries)) ==> WellFormed(entries)
    {
      if forall x :: x in entries ==> !x.HasPair(tipo, ciudad) {
        WithClientSuggestionsNoMatch(entries, tipo, ciudad, selectedProperty, clientSuggestions);
      }
      if WellFormed(entries) {
        WithClientSuggestionsWellFormed(entries, tipo, ciudad, selectedProperty, clientSuggestions);
      }
      entries := WithClientSuggestions(entries, tipo, ciudad, selectedProperty, clientSuggestions);
      stored := entries;
    }

    /** Deletes the entry with the given id. */
    method RemoveItem(id: string)
      modifies this
      ensures Valid()
      ensures entries == WithoutId(old(entries), id)
      ensures (forall x :: x in old(entries) ==> x.id != id) ==> entries == old(entries)
      ensures WellFormed(old(entries)) ==> WellFormed(entries)
    {
      WithoutIdNoMatch(entries, id);
      if WellFormed(entries) {
        WithoutIdWellFormed(entries, id);
      }
      entries := WithoutId(entries, id);
      stored := entries;
    }

    /** Empties the history; emptying it again changes nothing. */
    method Clear()
      modifies this
      ensures Valid()
      ensures entries == [] && WellFormed(entries)
    {
      entries := [];
      stored := entries;
    }
  }
}
