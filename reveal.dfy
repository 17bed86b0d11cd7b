// The intersection observer's callback: every entry of a batch that is
// intersecting the viewport marks its section as revealed, one entry after
// the other, each update keeping every other key of the previous map.

module Reveal {
  import opened Sections

  /** One intersection observer entry: the observed section element and
      whether it is intersecting the viewport (at the 10% threshold). */
  datatype Entry = Entry(target: Section, isIntersecting: bool)

  /** The `isVisible` state: section ids that have been revealed. */
  type Revealed = map<Section, bool>

  /** One step of the callback's `forEach`: an intersecting entry writes
      `true` under its id on a copy of the previous map; another entry does nothing. */
  function RevealOne(m: Revealed, e: Entry): (r: Revealed)
    ensures forall s :: s in m ==> s in r && (m[s] ==> r[s])
    ensures e.isIntersecting ==> e.target in r && r[e.target]
    ensures forall s :: s in r && (s != e.target || !e.isIntersecting) ==> s in m && r[s] == m[s]
  {
    if e.isIntersecting then m[e.target := true] else m
  }

  /** The whole batch, applied in order. */
  function RevealBatch(m: Revealed, entries: seq<Entry>): (r: Revealed)
    ensures forall s :: s in m ==> s in r && (m[s] ==> r[s])
    ensures forall i :: 0 <= i < |entries| && entries[i].isIntersecting ==> entries[i].target in r && r[entries[i].target]
    decreases |entries|
  {
    if entries == [] then m
    else
      var r := RevealBatch(RevealOne(m, entries[0]), entries[1..]);
      assert forall i :: 1 <= i < |entries| ==> entries[i] == entries[1..][i - 1];
      r
  }

  /** The sections of the batch's intersecting entries. */
  function Intersecting(entries: seq<Entry>): set<Section>
  {
    set e | e in entries && e.isIntersecting :: e.target
  }

  /** Every section value in the map is `true`: nothing is ever hidden again. */
  predicate AllTrue(m: Revealed)
  {
    forall s :: s in m ==> m[s]
  }

  /** The intersecting sections of a batch are those of its first entry and those of the rest. */
  lemma IntersectingCons(entries: seq<Entry>)
    requires entries != []
    ensures Intersecting(entries)
      == (if entries[0].isIntersecting then {entries[0].target} else {}) + Intersecting(entries[1..])
  {
    assert entries == [entries[0]] + entries[1..];
  }

  /** `true` under every section of `x`. */
  function Marked(x: set<Section>): Revealed
  {
    map s | s in x :: true
  }

  /** One entry followed by a union is one union over the entry's section too. */
  lemma RevealOneThenMarked(m: Revealed, e: Entry, tail: set<Section>)
    ensures RevealOne(m, e) + Marked(tail)
         == m + Marked((if e.isIntersecting then {e.target} else {}) + tail)
  {
  }

  /** The batch is equivalent to one union: the old map, with `true` written
      under every intersecting entry's section. */
  lemma {:induction false} RevealBatchClosedForm(m: Revealed, entries: seq<Entry>)
    ensures RevealBatch(m, entries) == m + Marked(Intersecting(entries))
    decreases |entries|
  {
    if entries != [] {
      var e, rest := entries[0], entries[1..];
      RevealBatchClosedForm(RevealOne(m, e), rest);
      IntersectingCons(entries);
      RevealOneThenMarked(m, e, Intersecting(rest));
    }
  }

  /** The batch only adds keys, keeps every `true`, and writes `true` under
      every intersecting entry's section; a key not in the batch keeps its value. */
  lemma RevealBatchMonotone(m: Revealed, entries: seq<Entry>)
    ensures var r := RevealBatch(m, entries);
      && r.Keys == m.Keys + Intersecting(entries)
      && (forall s :: s in Intersecting(entries) ==> r[s])
      && (forall s :: s in m && s !in Intersecting(entries) ==> r[s] == m[s])
  {
    RevealBatchClosedForm(m, entries);
  }

  /** The batch never writes `false`: a `false` afterwards was there before. */
  lemma RevealBatchNeverWritesFalse(m: Revealed, entries: seq<Entry>, s: Section)
    requires s in RevealBatch(m, entries) && !RevealBatch(m, entries)[s]
    ensures s in m && !m[s]
  {
    RevealBatchClosedForm(m, entries);
  }

  /** A map of `true` values stays one. */
  lemma RevealBatchKeepsAllTrue(m: Revealed, entries: seq<Entry>)
    requires AllTrue(m)
    ensures AllTrue(RevealBatch(m, entries))
  {
    RevealBatchClosedForm(m, entries);
  }

  /** Re-delivering a batch changes nothing. */
  lemma RevealBatchIdempotent(m: Revealed, entries: seq<Entry>)
    ensures RevealBatch(RevealBatch(m, entries), entries) == RevealBatch(m, entries)
  {
    RevealBatchClosedForm(m, entries);
    RevealBatchClosedForm(RevealBatch(m, entries), entries);
  }

  /** Revealing sections that are already revealed leaves the map unchanged. */
  lemma RevealBatchAlreadyRevealed(m: Revealed, entries: seq<Entry>)
    requires forall s :: s in Intersecting(entries) ==> s in m && m[s]
    ensures RevealBatch(m, entries) == m
  {
  }

  /** The result does not depend on the order of the entries in the batch. */
  lemma RevealBatchOrderIndependent(m: Revealed, entries: seq<Entry>, entries': seq<Entry>)
    requires multiset(entries) == multiset(entries')
    ensures RevealBatch(m, entries) == RevealBatch(m, entries')
  {
    RevealBatchClosedForm(m, entries);
    RevealBatchClosedForm(m, entries');
    assert forall e :: e in entries <==> e in multiset(entries');
  }

  /** An entry that is not intersecting has no effect wherever it stands in the batch. */
  lemma NonIntersectingEntryIgnored(m: Revealed, before: seq<Entry>, after: seq<Entry>, s: Section)
    ensures RevealBatch(m, before + [Entry(s, false)] + after) == RevealBatch(m, before + after)
  {
    RevealBatchClosedForm(m, before + [Entry(s, false)] + after);
    RevealBatchClosedForm(m, before + after);
    assert Intersecting(before + [Entry(s, false)] + after) == Intersecting(before + after);
  }
}
