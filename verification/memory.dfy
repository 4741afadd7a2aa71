/** The continuity memory of backend/app/core/memory.py: a log of narrative
    events with bounded retention (the Chroma collection "narrative_events")
    and a table of character profiles, plus the text they are rendered into
    for prompts. */
module Memory {
  import opened Wrappers
  import opened Text
  import opened Dicts
  import opened Sorting

  /** How many events the cleanup keeps. */
  const Retained: nat := 10
  /** How many characters of a retrieved document go into the context. */
  const DocumentBudget: nat := 1000

  type Metadata = Dict<string>
  type Traits = Dict<string>

  /** One record of the collection: id, document text and metadata. */
  datatype Event = Event(id: string, document: string, metadata: Metadata)

  /** `metadata.get("timestamp", "")` */
  function TimestampOf(e: Event): string {
    Lookup(e.metadata, "timestamp").GetOr("")
  }

  predicate DistinctIds(s: seq<Event>) {
    forall i, j :: 0 <= i < j < |s| ==> s[i].id != s[j].id
  }

  function IdSet(s: seq<Event>): set<string> {
    set e | e in s :: e.id
  }

  // ---------------------------------------------------------------------
  // Adding an event
  // ---------------------------------------------------------------------

  /** The event `add_event` stores: metadata defaults to `{}`, its
      "timestamp" is set to the current time `now`, and the id is "evt_"
      followed by the clock reading `clock`. */
  function NewEvent(text: string, metadata: Option<Metadata>, now: string, clock: string): Event {
    Event("evt_" + clock, text, Put(metadata.GetOr([]), "timestamp", now))
  }

  /** The stored event carries `now` as its timestamp, keeps every other
      metadata entry, and keeps the caller's keys in their order. */
  lemma NewEventStamped(text: string, metadata: Option<Metadata>, now: string, clock: string)
    ensures var e := NewEvent(text, metadata, now, clock);
            && TimestampOf(e) == now
            && e.document == text
            && StartsWith(e.id, "evt_")
            && (forall k :: k != "timestamp" ==> Lookup(e.metadata, k) == Lookup(metadata.GetOr([]), k))
            && Keys(metadata.GetOr([])) <= Keys(e.metadata)
  {
    var m := metadata.GetOr([]);
    PutLookup(m, "timestamp", now);
    PutKeys(m, "timestamp", now);
    var k := Keys(Put(m, "timestamp", now));
    assert k[..|Keys(m)|] == Keys(m);
  }

  // ---------------------------------------------------------------------
  // Retention: _cleanup_history
  // ---------------------------------------------------------------------

  /** The `{"id", "timestamp"}` records the cleanup sorts. */
  datatype Item = Item(id: string, timestamp: string)

  function ItemOf(e: Event): Item {
    Item(e.id, TimestampOf(e))
  }

  function Items(s: seq<Event>): (r: seq<Item>)
    ensures |r| == |s|
    ensures forall i :: 0 <= i < |s| ==> r[i] == ItemOf(s[i])
  {
    seq(|s|, i requires 0 <= i < |s| => ItemOf(s[i]))
  }

  function ItemIds(t: seq<Item>): set<string> {
    set x | x in t :: x.id
  }

  /** The sort key of the cleanup: `items.sort(key=lambda x: x['timestamp'])`. */
  predicate Older(a: Item, b: Item) {
    Below(a.timestamp, b.timestamp)
  }

  /** The ids the cleanup deletes: nothing when at most `Retained` events
      are stored, otherwise all but the last `Retained` of the items sorted
      by timestamp. */
  function Doomed(s: seq<Event>): set<string> {
    if |s| <= Retained then {}
    else
      var sorted := Sort(Items(s), Older);
      ItemIds(sorted[..|sorted| - Retained])
  }

  /** `collection.delete(ids=doomed)`: the events whose id is listed go, the
      others stay in their order. */
  function Delete(s: seq<Event>, doomed: set<string>): seq<Event>
    decreases |s|
  {
    if s == [] then []
    else (if s[0].id in doomed then [] else [s[0]]) + Delete(s[1..], doomed)
  }

  /** The store after `_cleanup_history`. */
  function Evict(s: seq<Event>): seq<Event> {
    Delete(s, Doomed(s))
  }

  lemma {:induction false} DeleteMembers(s: seq<Event>, doomed: set<string>)
    ensures forall e :: e in Delete(s, doomed) <==> e in s && e.id !in doomed
    decreases |s|
  {
    if s != [] {
      DeleteMembers(s[1..], doomed);
      assert forall e :: e in s <==> e == s[0] || e in s[1..];
    }
  }

  lemma {:induction false} DeleteKeepsDistinct(s: seq<Event>, doomed: set<string>)
    requires DistinctIds(s)
    ensures DistinctIds(Delete(s, doomed))
    decreases |s|
  {
    if s != [] {
      DeleteKeepsDistinct(s[1..], doomed);
      DeleteMembers(s[1..], doomed);
      var rest := Delete(s[1..], doomed);
      assert forall e :: e in rest ==> e.id != s[0].id by {
        forall e | e in rest ensures e.id != s[0].id {
          var k :| 0 <= k < |s[1..]| && s[1..][k] == e;
          assert s[k + 1] == e;
        }
      }
    }
  }

  /** With distinct ids, deleting removes exactly the stored events whose id
      is listed. */
  lemma {:induction false} DeleteCount(s: seq<Event>, doomed: set<string>)
    requires DistinctIds(s)
    ensures |Delete(s, doomed)| + |doomed * IdSet(s)| == |s|
    decreases |s|
  {
    if s != [] {
      var rest := s[1..];
      DeleteCount(rest, doomed);
      IdSetCons(s);
      var here := doomed * IdSet(s);
      var there := doomed * IdSet(rest);
      if s[0].id in doomed {
        assert here == {s[0].id} + there;
        assert |here| == |there| + 1;
      } else {
        assert here == there;
      }
    }
  }

  lemma IdSetCons(s: seq<Event>)
    requires DistinctIds(s) && s != []
    ensures IdSet(s) == {s[0].id} + IdSet(s[1..])
    ensures s[0].id !in IdSet(s[1..])
  {
    var rest := s[1..];
    assert forall e :: e in s <==> e == s[0] || e in rest;
    forall e | e in rest ensures e.id != s[0].id {
      var k :| 0 <= k < |rest| && rest[k] == e;
      assert s[k + 1] == e;
    }
  }

  lemma OlderIsStrictWeak()
    ensures StrictWeakOrder(Older)
  {
    forall a: Item, b: Item | Older(a, b) ensures !Older(b, a) {
      BelowAsymmetric(a.timestamp, b.timestamp);
    }
    forall a: Item, b: Item, c: Item | Older(a, c) ensures Older(a, b) || Older(b, c) {
      AtMostTotalOrder(c.timestamp, b.timestamp, a.timestamp);
    }
  }

  /** What the proofs about the cleanup need to know about its sorted items. */
  lemma SortedItems(s: seq<Event>)
    requires DistinctIds(s)
    ensures var sorted := Sort(Items(s), Older);
            && Distinct(sorted)
            && Ordered(sorted, Older)
            && (forall x :: x in sorted <==> x in Items(s))
            && (forall m, n :: 0 <= m < n < |sorted| ==> sorted[m].id != sorted[n].id)
  {
    var items := Items(s);
    var sorted := Sort(items, Older);
    SortedItemsPermute(s);
    OlderIsStrictWeak();
    SortOrdered(items, Older);
    forall m, n | 0 <= m < n < |sorted| ensures sorted[m].id != sorted[n].id {
      assert sorted[m] in sorted && sorted[n] in sorted;
      SameIdSameItem(s, sorted[m], sorted[n]);
    }
  }

  lemma SortedItemsPermute(s: seq<Event>)
    requires DistinctIds(s)
    ensures var sorted := Sort(Items(s), Older);
            && Distinct(sorted)
            && (forall x :: x in sorted <==> x in Items(s))
  {
    var items := Items(s);
    var sorted := Sort(items, Older);
    DistinctItems(s);
    SortDistinct(items, Older);
    SortPermutes(items, Older);
    assert forall x :: x in sorted <==> x in multiset(items);
  }

  lemma DistinctItems(s: seq<Event>)
    requires DistinctIds(s)
    ensures Distinct(Items(s))
  {
    var items := Items(s);
    forall i, j | 0 <= i < j < |items| ensures items[i] != items[j] {
      assert items[i].id == s[i].id;
    }
  }

  /** Items of a store with distinct ids are told apart by their ids. */
  lemma SameIdSameItem(s: seq<Event>, x: Item, y: Item)
    requires DistinctIds(s) && x in Items(s) && y in Items(s)
    ensures x.id == y.id ==> x == y
  {
    var items := Items(s);
    var p :| 0 <= p < |items| && items[p] == x;
    var q :| 0 <= q < |items| && items[q] == y;
    assert s[p].id == x.id && s[q].id == y.id;
  }

  /** Where a stored event's item sits in the sorted items: before the
      cut-off exactly when its id is doomed. */
  lemma DoomedPlace(s: seq<Event>, e: Event) returns (m: nat)
    requires DistinctIds(s) && |s| > Retained && e in s
    ensures var sorted := Sort(Items(s), Older);
            && m < |sorted| && sorted[m] == ItemOf(e)
            && (e.id in Doomed(s) <==> m < |s| - Retained)
  {
    var sorted := Sort(Items(s), Older);
    SortedItems(s);
    var i :| 0 <= i < |s| && s[i] == e;
    assert ItemOf(e) in Items(s) by { assert Items(s)[i] == ItemOf(e); }
    m :| 0 <= m < |sorted| && sorted[m] == ItemOf(e);
    InPrefix(sorted, m, |s| - Retained);
    if e.id in Doomed(s) {
      var x :| x in sorted[..|s| - Retained] && x.id == e.id;
      var n :| 0 <= n < |s| - Retained && sorted[n] == x;
      assert n == m;
    }
  }

  lemma InPrefix<T>(t: seq<T>, m: nat, k: nat)
    ensures m < k <= |t| ==> t[m] in t[..k]
  {
    if m < k <= |t| {
      assert t[..k][m] == t[m];
    }
  }

  /** The cleanup leaves `Retained` events when there were more, and all of
      them otherwise; ids stay distinct and every kept event was stored. */
  lemma EvictCount(s: seq<Event>)
    requires DistinctIds(s)
    ensures |Evict(s)| == if |s| <= Retained then |s| else Retained
    ensures DistinctIds(Evict(s))
    ensures forall e :: e in Evict(s) <==> e in s && e.id !in Doomed(s)
  {
    DeleteMembers(s, Doomed(s));
    DeleteKeepsDistinct(s, Doomed(s));
    DeleteCount(s, Doomed(s));
    if |s| <= Retained {
      assert Doomed(s) * IdSet(s) == {};
    } else {
      DoomedCount(s);
      assert Doomed(s) * IdSet(s) == Doomed(s);
    }
  }

  /** Beyond `Retained` events, the cleanup dooms exactly the surplus, all of
      them stored ids. */
  lemma DoomedCount(s: seq<Event>)
    requires DistinctIds(s) && |s| > Retained
    ensures Doomed(s) <= IdSet(s)
    ensures |Doomed(s)| == |s| - Retained
  {
    var sorted := Sort(Items(s), Older);
    var cut := sorted[..|s| - Retained];
    SortedItems(s);
    forall id | id in Doomed(s) ensures id in IdSet(s) {
      var x :| x in cut && x.id == id;
      assert x in Items(s);
      var p :| 0 <= p < |s| && Items(s)[p] == x;
      assert s[p] in s;
    }
    DistinctIdCount(cut);
  }

  /** Items with distinct ids have as many ids as items. */
  lemma {:induction false} DistinctIdCount(t: seq<Item>)
    requires forall m, n :: 0 <= m < n < |t| ==> t[m].id != t[n].id
    ensures |ItemIds(t)| == |t|
    decreases |t|
  {
    if t != [] {
      DistinctIdCount(t[1..]);
      assert ItemIds(t) == {t[0].id} + ItemIds(t[1..]) by {
        assert forall x :: x in t <==> x == t[0] || x in t[1..];
      }
      assert t[0].id !in ItemIds(t[1..]) by {
        forall x | x in t[1..] ensures x.id != t[0].id {
          var k :| 0 <= k < |t[1..]| && t[1..][k] == x;
          assert t[k + 1] == x;
        }
      }
    }
  }

  /** Nothing is evicted while at most `Retained` events are stored. */
  lemma EvictNothingWhenSmall(s: seq<Event>)
    requires |s| <= Retained
    ensures Evict(s) == s
  {
    DeleteNothing(s);
  }

  lemma {:induction false} DeleteNothing(s: seq<Event>)
    ensures Delete(s, {}) == s
    decreases |s|
  {
    if s != [] {
      DeleteNothing(s[1..]);
    }
  }

  /** Every evicted event is at most as recent as every kept one. */
  lemma EvictOldest(s: seq<Event>, gone: Event, kept: Event)
    requires DistinctIds(s)
    requires gone in s && gone !in Evict(s) && kept in Evict(s)
    ensures AtMost(TimestampOf(gone), TimestampOf(kept))
  {
    EvictCount(s);
    if |s| <= Retained {
      EvictNothingWhenSmall(s);
    } else {
      var sorted := Sort(Items(s), Older);
      SortedItems(s);
      var m := DoomedPlace(s, gone);
      var n := DoomedPlace(s, kept);
      assert !Older(sorted[n], sorted[m]);
    }
  }

  /** An event without a timestamp sorts as "" and goes before any event
      that has a non-empty one: if such an event is evicted, so is it. */
  lemma EvictUnstampedFirst(s: seq<Event>, unstamped: Event, stamped: Event)
    requires DistinctIds(s)
    requires unstamped in s && !HasKey(unstamped.metadata, "timestamp")
    requires stamped in s && stamped !in Evict(s) && TimestampOf(stamped) != ""
    ensures unstamped !in Evict(s)
  {
    LookupFindsKey(unstamped.metadata, "timestamp");
    if unstamped in Evict(s) {
      EvictOldest(s, stamped, unstamped);
      EmptyIsLeast(TimestampOf(stamped));
    }
  }

  /** Equal timestamps keep their retrieval order: when the later of two such
      events is evicted, so is the earlier. */
  lemma EvictTiesInOrder(s: seq<Event>, i: nat, j: nat)
    requires DistinctIds(s)
    requires i < j < |s| && TimestampOf(s[i]) == TimestampOf(s[j])
    requires s[j] !in Evict(s)
    ensures s[i] !in Evict(s)
  {
    EvictCount(s);
    if |s| <= Retained {
      EvictNothingWhenSmall(s);
    } else {
      var items, sorted := Items(s), Sort(Items(s), Older);
      SortedItems(s);
      BelowIrreflexive(TimestampOf(s[i]));
      SortStable(items, Older, i, j);
      var p, q :| 0 <= p < q < |sorted| && sorted[p] == items[i] && sorted[q] == items[j];
      var n := DoomedPlace(s, s[j]);
      var m := DoomedPlace(s, s[i]);
      assert n == q && m == p;
    }
  }

  /** A newcomer stamped no earlier than everything stored survives the
      cleanup that follows its insertion. */
  lemma NewestSurvives(s: seq<Event>, e: Event)
    requires DistinctIds(s) && e.id !in IdSet(s)
    requires forall y :: y in s ==> AtMost(TimestampOf(y), TimestampOf(e))
    ensures DistinctIds(s + [e])
    ensures e in Evict(s + [e])
  {
    var s' := s + [e];
    assert DistinctIds(s') by {
      forall i | 0 <= i < |s| ensures s[i].id != e.id { assert s[i] in s; }
    }
    EvictCount(s');
    if |s'| > Retained {
      var n := DoomedPlace(s', e);
      assert Items(s') == Items(s) + [ItemOf(e)];
      assert forall y :: y in Items(s) ==> !Older(ItemOf(e), y);
      SortAppendLast(Items(s), ItemOf(e), Older);
      var sorted := Sort(Items(s'), Older);
      assert sorted[|s|] == ItemOf(e);
      SortedItems(s');
      assert n == |s|;
    }
  }

  // ---------------------------------------------------------------------
  // Rendering retrieved events: get_relevant_context
  // ---------------------------------------------------------------------

  /** `doc[:1000] + "..." if len(doc) > 1000 else doc` */
  function Truncated(doc: string): (r: string)
    ensures |r| <= DocumentBudget + 3
    ensures |doc| <= DocumentBudget ==> r == doc
    ensures |doc| > DocumentBudget ==>
              |r| == DocumentBudget + 3 && StartsWith(r, doc[..DocumentBudget]) && EndsWith(r, "...")
  {
    if |doc| > DocumentBudget then doc[..DocumentBudget] + "..." else doc
  }

  /** The context's line for one retrieved document. */
  function ContextLine(doc: string): string {
    "- " + Truncated(doc) + "\n"
  }

  /** One line per retrieved document, in order. */
  function ContextLines(docs: seq<string>): string {
    ConcatMap(docs, ContextLine)
  }

  /** The context text for a similarity-search result: its per-query
      document lists, of which only the first (the one query) is used. */
  function RelevantContext(documents: seq<seq<string>>): string {
    if documents == [] then "" else ContextLines(documents[0])
  }

  /** The lines come in document order: line `i` is document `i`, truncated,
      after the lines of the documents before it. */
  lemma ContextLineAt(docs: seq<string>, i: nat)
    requires i < |docs|
    ensures ContextLines(docs) == ContextLines(docs[..i]) + ContextLine(docs[i]) + ContextLines(docs[i + 1..])
  {
    ConcatMapAt(docs, i, ContextLine);
  }

  /** No documents, no text; and each document costs at most its bounded
      line. */
  lemma {:induction false} ContextLinesBound(docs: seq<string>)
    ensures ContextLines(docs) == "" <==> docs == []
    ensures |ContextLines(docs)| <= |docs| * (DocumentBudget + 6)
    decreases |docs|
  {
    if docs != [] {
      ContextLinesBound(docs[..|docs| - 1]);
    }
  }

  // ---------------------------------------------------------------------
  // Rendering profiles
  // ---------------------------------------------------------------------

  /** `str(d)` of a dict of strings: `{'k': 'v', ...}`. */
  function DictText(d: Traits): string {
    "{" + Join(seq(|d|, i requires 0 <= i < |d| => "'" + d[i].key + "': '" + d[i].value + "'"), ", ") + "}"
  }

  /** `profiles.get(name, {})` */
  function ProfileOf(profiles: map<string, Traits>, name: string): (t: Traits)
    ensures name in profiles ==> t == profiles[name]
    ensures name !in profiles ==> t == []
  {
    if name in profiles then profiles[name] else []
  }

  /** Laying `traits` over a profile: every key of `traits` takes its new
      value, every other key keeps its old one, the old keys keep their
      places in front, and keys stay distinct. */
  lemma OverlayTraits(current: Traits, traits: Traits)
    requires DistinctKeys(traits)
    ensures forall k :: Lookup(Update(current, traits), k)
                        == if HasKey(traits, k) then Lookup(traits, k) else Lookup(current, k)
    ensures Keys(current) <= Keys(Update(current, traits))
    ensures DistinctKeys(current) ==> DistinctKeys(Update(current, traits))
  {
    UpdateLookup(current, traits);
    UpdateKeys(current, traits);
    forall k ensures Lookup(Update(current, traits), k)
                     == if HasKey(traits, k) then Lookup(traits, k) else Lookup(current, k)
    {
      LastValueIsLookup(traits, k);
      LookupFindsKey(traits, k);
    }
  }

  /** The summary's filter: no filter (None or "") takes every profile,
      otherwise the lower-cased name must occur in the lower-cased filter. */
  predicate Included(name: string, filter: Option<string>) {
    filter == None || filter == Some("") || Contains(Lower(filter.value), Lower(name))
  }

  /** The names the summary lists, in table order. */
  function Selected(names: seq<string>, filter: Option<string>): seq<string>
    decreases |names|
  {
    if names == [] then []
    else
      var last := names[|names| - 1];
      Selected(names[..|names| - 1], filter) + (if Included(last, filter) then [last] else [])
  }

  /** The summary's line for one profile. */
  function ProfileLine(profiles: map<string, Traits>, name: string): string {
    "- " + name + ": " + DictText(ProfileOf(profiles, name)) + "\n"
  }

  function ProfileLines(sel: seq<string>, profiles: map<string, Traits>): string
    decreases |sel|
  {
    if sel == [] then ""
    else ProfileLines(sel[..|sel| - 1], profiles) + ProfileLine(profiles, sel[|sel| - 1])
  }

  const SummaryHeader := "Character Profiles:\n"

  /** What `get_all_profiles_summary` returns. */
  function Summary(names: seq<string>, profiles: map<string, Traits>, filter: Option<string>): string {
    var sel := Selected(names, filter);
    if sel == [] then "" else SummaryHeader + ProfileLines(sel, profiles)
  }

  /** A name is listed exactly when it is in the table and passes the
      filter, and nothing is listed twice. */
  lemma {:induction false} SelectedSpec(names: seq<string>, filter: Option<string>)
    ensures forall n :: n in Selected(names, filter) <==> n in names && Included(n, filter)
    ensures |Selected(names, filter)| <= |names|
    ensures Distinct(names) ==> Distinct(Selected(names, filter))
    decreases |names|
  {
    if names != [] {
      var init := names[..|names| - 1];
      SelectedSpec(init, filter);
      assert names == init + [names[|names| - 1]];
      assert forall n :: n in names <==> n in init || n == names[|names| - 1];
    }
  }

  /** The listing keeps table order: filtering a table split in two lists
      the first part's names, then the second part's, and a single name is
      listed exactly when it passes the filter. */
  lemma {:induction false} SelectedAppend(a: seq<string>, b: seq<string>, filter: Option<string>)
    ensures Selected(a + b, filter) == Selected(a, filter) + Selected(b, filter)
    ensures |b| == 1 ==> Selected(b, filter) == if Included(b[0], filter) then b else []
    decreases |b|
  {
    if b == [] {
      assert a + b == a;
    } else {
      var b', last := b[..|b| - 1], b[|b| - 1];
      assert (a + b)[..|a + b| - 1] == a + b';
      assert (a + b)[|a + b| - 1] == last;
      var x, y := Selected(a, filter), Selected(b', filter);
      var z := if Included(last, filter) then [last] else [];
      calc {
        Selected(a + b, filter);
        Selected(a + b', filter) + z;
        { SelectedAppend(a, b', filter); }
        (x + y) + z;
        x + (y + z);
        x + Selected(b, filter);
      }
      if |b| == 1 {
        assert b' == [];
      }
    }
  }

  /** With no filter every profile is listed. */
  lemma {:induction false} SelectedAllWithoutFilter(names: seq<string>, filter: Option<string>)
    requires filter == None || filter == Some("")
    ensures Selected(names, filter) == names
    decreases |names|
  {
    if names != [] {
      SelectedAllWithoutFilter(names[..|names| - 1], filter);
    }
  }

  /** One more name examined by the summary loop. */
  lemma SummaryStep(names: seq<string>, i: nat, filter: Option<string>, profiles: map<string, Traits>)
    requires i < |names|
    ensures var sel := Selected(names[..i], filter);
            var name := names[i];
            && Selected(names[..i + 1], filter) == sel + (if Included(name, filter) then [name] else [])
            && SummaryHeader + ProfileLines(sel + [name], profiles)
               == (SummaryHeader + ProfileLines(sel, profiles)) + ProfileLine(profiles, name)
  {
    assert names[..i + 1][..i] == names[..i];
    var sel := Selected(names[..i], filter);
    assert (sel + [names[i]])[..|sel|] == sel;
  }

  /** The summary is empty exactly when no profile is selected, and
      otherwise is the header followed by one line per selected profile. */
  lemma SummarySpec(names: seq<string>, profiles: map<string, Traits>, filter: Option<string>)
    ensures Summary(names, profiles, filter) == "" <==> forall n :: n in names ==> !Included(n, filter)
    ensures Summary(names, profiles, filter) != "" ==> StartsWith(Summary(names, profiles, filter), SummaryHeader)
  {
    SelectedSpec(names, filter);
    var sel := Selected(names, filter);
    if sel != [] {
      assert sel[0] in sel;
    }
    var r := Summary(names, profiles, filter);
    if sel != [] {
      assert r[..|SummaryHeader|] == SummaryHeader;
    }
  }

  /** A filter naming the character always selects it, whether it is
      written as the name or in lower case, since both sides are lower-cased
      before the test. */
  lemma IncludedByOwnName(name: string)
    ensures Included(name, Some(name))
    ensures Included(name, Some(Lower(name)))
  {
    ContainsSelf(Lower(name));
    LowerIdempotent(name);
  }

  // ---------------------------------------------------------------------
  // Assembling the prompt context
  // ---------------------------------------------------------------------

  /** The line of one active character. */
  function CharacterLine(profiles: map<string, Traits>, name: string): string {
    name + ": " + DictText(ProfileOf(profiles, name)) + "\n"
  }

  function CharacterLines(active: seq<string>, profiles: map<string, Traits>): string
    decreases |active|
  {
    if active == [] then ""
    else CharacterLines(active[..|active| - 1], profiles) + CharacterLine(profiles, active[|active| - 1])
  }

  const ContextHeader := "--- CONTEXT ---\nCHARACTERS:\n"
  const EventsHeader := "\nPAST EVENTS:\n"
  const ContextRule := "---------------\n"

  /** What `assemble_prompt_context` returns. */
  function PromptContext(active: seq<string>, profiles: map<string, Traits>, documents: seq<seq<string>>): string {
    ContextHeader + CharacterLines(active, profiles) + EventsHeader + RelevantContext(documents) + ContextRule
  }

  lemma {:induction false} CharacterLinesAppend(a: seq<string>, b: seq<string>, profiles: map<string, Traits>)
    ensures CharacterLines(a + b, profiles) == CharacterLines(a, profiles) + CharacterLines(b, profiles)
    decreases |b|
  {
    if b == [] {
      assert a + b == a;
    } else {
      var b', last := b[..|b| - 1], b[|b| - 1];
      assert (a + b)[..|a + b| - 1] == a + b';
      assert (a + b)[|a + b| - 1] == last;
      var x, y, z := CharacterLines(a, profiles), CharacterLines(b', profiles), CharacterLine(profiles, last);
      calc {
        CharacterLines(a + b, profiles);
        CharacterLines(a + b', profiles) + z;
        { CharacterLinesAppend(a, b', profiles); }
        (x + y) + z;
        x + (y + z);
        x + CharacterLines(b, profiles);
      }
    }
  }

  /** One line per active character, in the given order. */
  lemma CharacterLineAt(active: seq<string>, profiles: map<string, Traits>, i: nat)
    requires i < |active|
    ensures CharacterLines(active, profiles)
            == CharacterLines(active[..i], profiles) + CharacterLine(profiles, active[i])
               + CharacterLines(active[i + 1..], profiles)
  {
    var before, after := active[..i], active[i + 1..];
    assert active == (before + [active[i]]) + after;
    CharacterLinesAppend(before + [active[i]], after, profiles);
    CharacterLinesAppend(before, [active[i]], profiles);
    assert [active[i]][..0] == [];
  }

  /** A character without a profile is shown with `{}`. */
  lemma CharacterLineUnknown(profiles: map<string, Traits>, name: string)
    ensures name !in profiles ==> CharacterLine(profiles, name) == name + ": {}\n"
  {
  }

  /** The context opens with its two headers and closes with the rule line;
      the past events sit right before the rule. */
  lemma PromptContextShape(active: seq<string>, profiles: map<string, Traits>, documents: seq<seq<string>>)
    ensures var r := PromptContext(active, profiles, documents);
            && StartsWith(r, ContextHeader)
            && EndsWith(r, EventsHeader + RelevantContext(documents) + ContextRule)
  {
    var lines, past := CharacterLines(active, profiles), RelevantContext(documents);
    var head := ContextHeader + lines;
    assert head[..|ContextHeader|] == ContextHeader;
    StartsWithAppend(head, ContextHeader, EventsHeader);
    StartsWithAppend(head + EventsHeader, ContextHeader, past);
    StartsWithAppend(head + EventsHeader + past, ContextHeader, ContextRule);
    assert (head + EventsHeader)[|head + EventsHeader| - |EventsHeader|..] == EventsHeader;
    EndsWithAppend(head + EventsHeader, EventsHeader, past);
    EndsWithAppend(head + EventsHeader + past, EventsHeader + past, ContextRule);
  }

  // ---------------------------------------------------------------------
  // get_all_history
  // ---------------------------------------------------------------------

  /** The three aligned lists `get_all_history` returns. */
  datatype History = History(ids: seq<string>, documents: seq<string>, metadatas: seq<Metadata>)

  predicate Aligned(h: History) {
    |h.ids| == |h.documents| == |h.metadatas|
  }

  /** The events the lists describe, position by position. */
  function Rows(h: History): seq<Event>
    requires Aligned(h)
  {
    seq(|h.ids|, i requires 0 <= i < |h.ids| => Event(h.ids[i], h.documents[i], h.metadatas[i]))
  }

  /** `reverse=True` on the timestamp key: the more recent sorts first. */
  predicate Newer(a: Event, b: Event) {
    Below(TimestampOf(b), TimestampOf(a))
  }

  lemma NewerIsStrictWeak()
    ensures StrictWeakOrder(Newer)
  {
    forall a: Event, b: Event | Newer(a, b) ensures !Newer(b, a) {
      BelowAsymmetric(TimestampOf(b), TimestampOf(a));
    }
    forall a: Event, b: Event, c: Event | Newer(a, c) ensures Newer(a, b) || Newer(b, c) {
      AtMostTotalOrder(TimestampOf(a), TimestampOf(b), TimestampOf(c));
    }
  }

  // ---------------------------------------------------------------------
  // The manager
  // ---------------------------------------------------------------------

  class MemoryManager {
    /** The Chroma collection, in insertion order. */
    var events: seq<Event>
    /** Profile names in the order the table holds them. */
    var names: seq<string>
    var profiles: map<string, Traits>

    ghost predicate Valid()
      reads this
    {
      && DistinctIds(events)
      && Distinct(names)
      && (forall n :: n in profiles <==> n in names)
      && (forall n :: n in profiles ==> DistinctKeys(profiles[n]))
    }

    /** `MemoryManager()`: the collection as stored and the profile table as
        read from the profiles file (empty when there is none). */
    constructor (stored: seq<Event>, savedNames: seq<string>, saved: map<string, Traits>)
      requires DistinctIds(stored) && Distinct(savedNames)
      requires forall n :: n in saved <==> n in savedNames
      requires forall n :: n in saved ==> DistinctKeys(saved[n])
      ensures Valid()
      ensures events == stored && names == savedNames && profiles == saved
    {
      events, names, profiles := stored, savedNames, saved;
    }

    /** `add_event(text, metadata)` with the clock readings passed in: the
        event is added (an id already present is left alone, as Chroma
        does) and the cleanup runs. */
    method AddEvent(text: string, metadata: Option<Metadata>, now: string, clock: string)
      requires Valid()
      modifies this
      ensures Valid()
      ensures names == old(names) && profiles == old(profiles)
      ensures var e := NewEvent(text, metadata, now, clock);
              events == Evict(if e.id in IdSet(old(events)) then old(events) else old(events) + [e])
      ensures |events| <= Retained
    {
      var e := NewEvent(text, metadata, now, clock);
      if e.id !in IdSet(events) {
        forall i | 0 <= i < |events| ensures events[i].id != e.id {
          assert events[i] in events;
        }
        events := events + [e];
      }
      CleanupHistory();
    }

    /** `_cleanup_history()`: keep the `Retained` most recent events. */
    method CleanupHistory()
      requires Valid()
      modifies this
      ensures Valid()
      ensures names == old(names) && profiles == old(profiles)
      ensures events == Evict(old(events))
      ensures |events| == if |old(events)| <= Retained then |old(events)| else Retained
    {
      EvictCount(events);
      if |events| <= Retained {
        EvictNothingWhenSmall(events);
        return;
      }
      var items: seq<Item> := [];
      var i := 0;
      while i < |events|
        invariant 0 <= i <= |events|
        invariant items == Items(events[..i])
      {
        items := items + [ItemOf(events[i])];
        i := i + 1;
      }
      assert events[..i] == events;
      items := Sort(items, Older);
      var doomed := ItemIds(items[..|items| - Retained]);
      events := Delete(events, doomed);
    }

    /** `get_relevant_context(query, n_results)`. The similarity search over
        the collection is outside the model: `documents` is whatever it
        returned for `query` and `nResults`. */
    method GetRelevantContext(query: string, nResults: int, documents: seq<seq<string>>) returns (r: string)
      ensures r == RelevantContext(documents)
      ensures r == "" <==> documents == [] || documents[0] == []
      ensures documents != [] ==> |r| <= |documents[0]| * (DocumentBudget + 6)
    {
      r := "";
      if documents != [] {
        var docs := documents[0];
        var i := 0;
        while i < |docs|
          invariant 0 <= i <= |docs|
          invariant r == ContextLines(docs[..i])
        {
          assert docs[..i + 1][..i] == docs[..i];
          r := r + ContextLine(docs[i]);
          i := i + 1;
        }
        assert docs[..i] == docs;
        ContextLinesBound(docs);
      }
    }

    /** `update_profile(name, traits)`: an unknown name gets an empty
        profile at the end of the table, then the traits are laid over it. */
    method UpdateProfile(name: string, traits: Traits)
      requires Valid() && DistinctKeys(traits)
      modifies this
      ensures Valid()
      ensures events == old(events)
      ensures names == if name in old(profiles) then old(names) else old(names) + [name]
      ensures profiles == old(profiles)[name := Update(ProfileOf(old(profiles), name), traits)]
    {
      if name !in profiles {
        profiles := profiles[name := []];
        names := names + [name];
      }
      UpdateKeys(profiles[name], traits);
      profiles := profiles[name := Update(profiles[name], traits)];
    }

    /** `get_all_profiles_summary(filter_text)` */
    method GetAllProfilesSummary(filter: Option<string>) returns (r: string)
      ensures r == Summary(names, profiles, filter)
    {
      var all, table := names, profiles;
      var summary := SummaryHeader;
      var found := false;
      ghost var sel: seq<string> := [];
      var i := 0;
      while i < |all|
        invariant 0 <= i <= |all|
        invariant sel == Selected(all[..i], filter)
        invariant found <==> sel != []
        invariant summary == SummaryHeader + ProfileLines(sel, table)
      {
        var name := all[i];
        SummaryStep(all, i, filter, table);
        if Included(name, filter) {
          summary := summary + ProfileLine(table, name);
          found := true;
          sel := sel + [name];
        }
        i := i + 1;
      }
      assert all[..i] == all;
      r := if found then summary else "";

    }

    /** `get_all_history()`: the stored events, most recent first, as three
        aligned lists; events with equal timestamps keep their store order. */
    method GetAllHistory() returns (h: History)
      ensures Aligned(h) && |h.ids| == |events|
      ensures multiset(Rows(h)) == multiset(events)
      ensures Ordered(Rows(h), Newer)
      ensures forall i, j :: 0 <= i < j < |events| && TimestampOf(events[i]) == TimestampOf(events[j])
                ==> Precedes(Rows(h), events[i], events[j])
    {
      if events == [] {
        return History([], [], []);
      }
      var zipped := Sort(events, Newer);
      h := History(seq(|zipped|, i requires 0 <= i < |zipped| => zipped[i].id),
                   seq(|zipped|, i requires 0 <= i < |zipped| => zipped[i].document),
                   seq(|zipped|, i requires 0 <= i < |zipped| => zipped[i].metadata));
      assert Rows(h) == zipped;
      SortPermutes(events, Newer);
      NewerIsStrictWeak();
      SortOrdered(events, Newer);
      forall i, j | 0 <= i < j < |events| && TimestampOf(events[i]) == TimestampOf(events[j])
        ensures Precedes(Rows(h), events[i], events[j])
      {
        BelowIrreflexive(TimestampOf(events[i]));
        SortStable(events, Newer, i, j);
      }
    }

    /** `clear_all_history()` */
    method ClearAllHistory()
      requires Valid()
      modifies this
      ensures Valid()
      ensures events == [] && names == old(names) && profiles == old(profiles)
    {
      if events != [] {
        events := [];
      }
    }

    /** `assemble_prompt_context(query, active_characters)`: profiles first,
        then the events the similarity search returned for `query`. */
    method AssemblePromptContext(query: string, active: seq<string>, documents: seq<seq<string>>) returns (r: string)
      ensures r == PromptContext(active, profiles, documents)
    {
      r := ContextHeader;
      var i := 0;
      while i < |active|
        invariant 0 <= i <= |active|
        invariant r == ContextHeader + CharacterLines(active[..i], profiles)
      {
        assert active[..i + 1][..i] == active[..i];
        r := r + CharacterLine(profiles, active[i]);
        i := i + 1;
      }
      assert active[..i] == active;
      r := r + EventsHeader;
      var past := GetRelevantContext(query, 3, documents);
      r := r + past + ContextRule;
    }
  }
}
