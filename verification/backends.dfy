/**
  Choosing the clipboard-manager backend (`get_manager` and its `sorter` key).

  The registry is the fixed, ordered list of adapters (CopyQ, GPaste, Clipster,
  Clipman). Each adapter's probes `can_start()`, `is_enabled()` and
  `is_running()` spawn processes; here they are reduced to the booleans they
  returned, so a registry is a sequence of probe records and a selection is an
  index into it.
 */
module Backends {

  /** One adapter of the registry together with the outcome of its probes. */
  datatype Backend = Backend(name: string, canStart: bool, enabled: bool, running: bool)

  /** What `get_manager` produces: the chosen adapter's registry index, the
      `IndexError` of `sorted(...)[-1]` on an empty list of contenders, or the
      `None` that falls out of the name search. */
  datatype Selection = Chosen(index: nat) | NoBackendAvailable | UnknownBackend

  /** The adapters of the registry, in declaration order. */
  datatype Manager = CopyQ | GPaste | Clipster | Clipman

  /** `clipboard_managers`: the fixed order in which adapters are searched and
      in which ties between equally ranked adapters are broken. */
  const ClipboardManagers: seq<Manager> := [CopyQ, GPaste, Clipster, Clipman]

  /** The registry for one query: each adapter with the outcome of its probes. */
  function Registry(probe: Manager -> Backend): (registry: seq<Backend>)
    ensures |registry| == |ClipboardManagers|
    ensures forall i :: 0 <= i < |registry| ==> registry[i] == probe(ClipboardManagers[i])
  {
    [probe(CopyQ), probe(GPaste), probe(Clipster), probe(Clipman)]
  }

  /** The preference value that asks for automatic selection. */
  const Auto: string := "Auto"

  function Bit(b: bool): nat {
    if b then 1 else 0
  }

  /** `str(int(b))`: the digit a boolean formats to. */
  function BoolDigit(b: bool): char {
    if b then '1' else '0'
  }

  predicate AllDigits(s: string) {
    forall k :: 0 <= k < |s| ==> '0' <= s[k] <= '9'
  }

  /** `int(s)` for a string of decimal digits; the empty string reads as 0. */
  function DecimalValue(s: string): int
    requires AllDigits(s)
  {
    if |s| == 0 then 0
    else 10 * DecimalValue(s[..|s| - 1]) + (s[|s| - 1] as int - '0' as int)
  }

  /** The `sorter` key `int("{}{}".format(int(enabled), int(running)))`: the two
      probe bits read as a two-digit decimal number. */
  function SorterKey(b: Backend): (k: int)
    ensures k == 10 * Bit(b.enabled) + Bit(b.running)
    ensures 0 <= k <= 11
  {
    var digits := [BoolDigit(b.enabled), BoolDigit(b.running)];
    assert digits[..1] == [BoolDigit(b.enabled)] && digits[..1][..0] == [];
    assert DecimalValue(digits[..1]) == Bit(b.enabled);
    DecimalValue(digits)
  }

  /** The key orders backends by `enabled` first and `running` second. */
  lemma SorterKeyOrder(a: Backend, b: Backend)
    ensures SorterKey(a) < SorterKey(b) <==>
      (!a.enabled && b.enabled) || (a.enabled == b.enabled && !a.running && b.running)
  {
  }

  predicate InRange(registry: seq<Backend>, s: seq<nat>) {
    forall k :: 0 <= k < |s| ==> s[k] < |registry|
  }

  predicate StrictlyIncreasing(s: seq<nat>) {
    forall a, b :: 0 <= a < b < |s| ==> s[a] < s[b]
  }

  function KeyAt(registry: seq<Backend>, i: nat): int
    requires i < |registry|
  {
    SorterKey(registry[i])
  }

  /** Registry index `i` comes strictly before `j` in the order a stable sort
      by `sorter` leaves them in: a smaller key, or an equal key and an earlier
      registry position. */
  predicate RanksBelow(registry: seq<Backend>, i: nat, j: nat)
    requires i < |registry| && j < |registry|
  {
    KeyAt(registry, i) < KeyAt(registry, j)
    || (KeyAt(registry, i) == KeyAt(registry, j) && i < j)
  }

  predicate SortedByRank(registry: seq<Backend>, s: seq<nat>)
    requires InRange(registry, s)
  {
    forall a, b :: 0 <= a < b < |s| ==> RanksBelow(registry, s[a], s[b])
  }

  /** `[m for m in clipboard_managers if m.can_start()]`, from position `from` on,
      as registry indices. */
  function ContendersFrom(registry: seq<Backend>, from: nat): (c: seq<nat>)
    ensures forall k :: 0 <= k < |c| ==> from <= c[k] < |registry| && registry[c[k]].canStart
    ensures forall i :: from <= i < |registry| && registry[i].canStart ==> i in c
    ensures StrictlyIncreasing(c)
    decreases |registry| - from
  {
    if from >= |registry| then []
    else (if registry[from].canStart then [from] else []) + ContendersFrom(registry, from + 1)
  }

  /** The startable backends, in registry order. */
  function Contenders(registry: seq<Backend>): (c: seq<nat>)
    ensures InRange(registry, c) && StrictlyIncreasing(c)
    ensures forall k :: 0 <= k < |c| ==> registry[c[k]].canStart
    ensures forall i :: 0 <= i < |registry| && registry[i].canStart ==> i in c
  {
    ContendersFrom(registry, 0)
  }

  /** One step of a stable insertion sort by key: `x`, which comes after every
      element of `t` in the registry, goes after every element whose key is not
      larger than its own. */
  function Insert(registry: seq<Backend>, t: seq<nat>, x: nat): (r: seq<nat>)
    requires x < |registry| && InRange(registry, t) && SortedByRank(registry, t)
    requires forall k :: 0 <= k < |t| ==> t[k] < x
    ensures |r| == |t| + 1 && multiset(r) == multiset(t) + multiset{x}
    ensures InRange(registry, r) && SortedByRank(registry, r)
  {
    if |t| == 0 then [x]
    else if KeyAt(registry, t[|t| - 1]) <= KeyAt(registry, x) then
      AllBelowAppended(registry, t, x);
      t + [x]
    else
      var init := t[..|t| - 1];
      var last := t[|t| - 1];
      var front := Insert(registry, init, x);
      FrontBelowLast(registry, t, x, front);
      AppendSorted(registry, front, last);
      assert t == init + [last];
      front + [last]
  }

  /** When `x` has at least the key of the last element of `t`, it outranks
      every element of `t`. */
  lemma AllBelowAppended(registry: seq<Backend>, t: seq<nat>, x: nat)
    requires x < |registry| && InRange(registry, t) && SortedByRank(registry, t) && |t| > 0
    requires forall k :: 0 <= k < |t| ==> t[k] < x
    requires KeyAt(registry, t[|t| - 1]) <= KeyAt(registry, x)
    ensures InRange(registry, t + [x]) && SortedByRank(registry, t + [x])
  {
    forall y | y in t ensures RanksBelow(registry, y, x) {
      var a :| 0 <= a < |t| && t[a] == y;
      assert a < |t| - 1 ==> RanksBelow(registry, t[a], t[|t| - 1]);
    }
    AppendSorted(registry, t, x);
  }

  /** When `x` has a smaller key than the last element of `t`, that last
      element outranks `x` and everything before it. */
  lemma FrontBelowLast(registry: seq<Backend>, t: seq<nat>, x: nat, front: seq<nat>)
    requires x < |registry| && InRange(registry, t) && SortedByRank(registry, t) && |t| > 0
    requires KeyAt(registry, t[|t| - 1]) > KeyAt(registry, x)
    requires InRange(registry, front) && multiset(front) == multiset(t[..|t| - 1]) + multiset{x}
    ensures forall y :: y in front ==> RanksBelow(registry, y, t[|t| - 1])
  {
    var init := t[..|t| - 1];
    forall y | y in front ensures RanksBelow(registry, y, t[|t| - 1]) {
      assert y in multiset(front);
      if y != x {
        assert y in multiset(init);
        var a :| 0 <= a < |init| && init[a] == y;
        assert t[a] == y;
      }
    }
  }

  /** Appending an element that outranks everything keeps a sequence sorted. */
  lemma AppendSorted(registry: seq<Backend>, s: seq<nat>, x: nat)
    requires x < |registry| && InRange(registry, s) && SortedByRank(registry, s)
    requires forall y :: y in s ==> RanksBelow(registry, y, x)
    ensures InRange(registry, s + [x]) && SortedByRank(registry, s + [x])
  {
    var r := s + [x];
    forall a, b | 0 <= a < b < |r| ensures RanksBelow(registry, r[a], r[b]) {
      if b == |s| {
        assert r[a] in s;
      }
    }
  }

  /** `sorted(contenders, key=sorter)`: Python's stable sort, as an insertion
      sort. On registry indices listed in increasing order, the result is a
      permutation sorted by key and, among equal keys, by registry position. */
  function SortByKey(registry: seq<Backend>, s: seq<nat>): (r: seq<nat>)
    requires InRange(registry, s) && StrictlyIncreasing(s)
    ensures |r| == |s| && multiset(r) == multiset(s)
    ensures InRange(registry, r) && SortedByRank(registry, r)
  {
    if |s| == 0 then []
    else
      var init := s[..|s| - 1];
      var sorted := SortByKey(registry, init);
      PermutationBelowLast(s, sorted);
      assert s == init + [s[|s| - 1]];
      Insert(registry, sorted, s[|s| - 1])
  }

  /** A rearrangement of all but the last element of an increasing sequence
      lies below that last element. */
  lemma PermutationBelowLast(s: seq<nat>, p: seq<nat>)
    requires StrictlyIncreasing(s) && |s| > 0
    requires multiset(p) == multiset(s[..|s| - 1])
    ensures forall k :: 0 <= k < |p| ==> p[k] < s[|s| - 1]
  {
    var init := s[..|s| - 1];
    forall k | 0 <= k < |p| ensures p[k] < s[|s| - 1] {
      assert p[k] in multiset(init);
      var a :| 0 <= a < |init| && init[a] == p[k];
    }
  }

  /** Registry index `i` is startable and outranks every other startable
      backend: a larger key, or the same key and a later registry position. */
  predicate IsBestContender(registry: seq<Backend>, i: nat) {
    && i < |registry|
    && registry[i].canStart
    && forall j :: 0 <= j < |registry| && registry[j].canStart && j != i ==> RanksBelow(registry, j, i)
  }

  /** `get_manager('Auto')`: the last element of the contenders sorted by key. */
  function AutoSelect(registry: seq<Backend>): (r: Selection)
    ensures r.NoBackendAvailable? <==> forall i :: 0 <= i < |registry| ==> !registry[i].canStart
    ensures r.Chosen? ==> IsBestContender(registry, r.index)
    ensures !r.UnknownBackend?
  {
    var c := Contenders(registry);
    if |c| == 0 then NoBackendAvailable
    else
      var sorted := SortByKey(registry, c);
      LastIsBest(registry, c, sorted);
      Chosen(sorted[|sorted| - 1])
  }

  /** The last element of the sorted contenders outranks every other contender. */
  lemma LastIsBest(registry: seq<Backend>, c: seq<nat>, sorted: seq<nat>)
    requires InRange(registry, c) && |c| > 0
    requires forall k :: 0 <= k < |c| ==> registry[c[k]].canStart
    requires forall i :: 0 <= i < |registry| && registry[i].canStart ==> i in c
    requires multiset(sorted) == multiset(c) && |sorted| == |c|
    requires InRange(registry, sorted) && SortedByRank(registry, sorted)
    ensures IsBestContender(registry, sorted[|sorted| - 1])
  {
    var n := |sorted| - 1;
    assert sorted[n] in multiset(c);
    forall j | 0 <= j < |registry| && registry[j].canStart && j != sorted[n]
      ensures RanksBelow(registry, j, sorted[n])
    {
      assert j in multiset(sorted);
      var a :| 0 <= a < |sorted| && sorted[a] == j;
    }
  }

  /** At most one backend can be the best contender. */
  lemma BestContenderUnique(registry: seq<Backend>, i: nat, j: nat)
    requires IsBestContender(registry, i) && IsBestContender(registry, j)
    ensures i == j
  {
  }

  /** The name search of `get_manager` from position `from` on. */
  function FindByNameFrom(registry: seq<Backend>, name: string, from: nat): (r: Selection)
    ensures r.Chosen? ==> from <= r.index < |registry| && registry[r.index].name == name
    ensures r.Chosen? ==> forall j :: from <= j < r.index ==> registry[j].name != name
    ensures r.UnknownBackend? <==> forall j :: from <= j < |registry| ==> registry[j].name != name
    ensures !r.NoBackendAvailable?
    decreases |registry| - from
  {
    if from >= |registry| then UnknownBackend
    else if registry[from].name == name then Chosen(from)
    else FindByNameFrom(registry, name, from + 1)
  }

  /** `get_manager(name)`: automatic selection for `"Auto"`, otherwise the first
      registry entry carrying exactly that name. */
  function Select(registry: seq<Backend>, requested: string): (r: Selection)
    ensures requested == Auto ==>
      && (r.NoBackendAvailable? <==> forall i :: 0 <= i < |registry| ==> !registry[i].canStart)
      && (r.Chosen? ==> IsBestContender(registry, r.index))
      && !r.UnknownBackend?
    ensures requested != Auto ==>
      && (r.Chosen? ==> r.index < |registry| && registry[r.index].name == requested)
      && (r.Chosen? ==> forall j :: 0 <= j < r.index ==> registry[j].name != requested)
      && (r.UnknownBackend? <==> forall j :: 0 <= j < |registry| ==> registry[j].name != requested)
      && !r.NoBackendAvailable?
  {
    if requested == Auto then AutoSelect(registry) else FindByNameFrom(registry, name := requested, from := 0)
  }

  /** Automatic selection picks the backend the ranking rule describes, and no
      other: it is a function of the probe outcomes alone. */
  lemma {:induction false} AutoSelectsBest(registry: seq<Backend>, i: nat)
    requires IsBestContender(registry, i)
    ensures Select(registry, Auto) == Chosen(i)
  {
    var r := Select(registry, Auto);
    assert !r.NoBackendAvailable?;
    BestContenderUnique(registry, r.index, i);
  }

  /** A three-adapter example: the first cannot start, whatever its probes
      say; the second is enabled but not running; the third is running but not
      enabled. The second is chosen. */
  lemma {:induction false} AutoPrefersEnabled(a: string, b: string, c: string, enabled: bool, running: bool)
    ensures Select([Backend(a, false, enabled, running), Backend(b, true, true, false), Backend(c, true, false, true)], Auto)
            == Chosen(1)
  {
    var registry := [Backend(a, false, enabled, running), Backend(b, true, true, false), Backend(c, true, false, true)];
    assert IsBestContender(registry, 1);
    AutoSelectsBest(registry, 1);
  }

  /** Among startable adapters with equal probe outcomes, the one declared last
      wins: when every adapter can start and all report the same state,
      automatic selection picks Clipman. */
  lemma {:induction false} AutoTieGoesToLastDeclared(probe: Manager -> Backend)
    requires forall m :: probe(m).canStart
    requires forall m :: probe(m).enabled == probe(CopyQ).enabled && probe(m).running == probe(CopyQ).running
    ensures Select(Registry(probe), Auto) == Chosen(3)
  {
    var registry := Registry(probe);
    assert ClipboardManagers[3] == Clipman;
    forall j | 0 <= j < |registry| && j != 3 ensures RanksBelow(registry, j, 3) {
      assert registry[j] == probe(ClipboardManagers[j]);
    }
    AutoSelectsBest(registry, 3);
  }
}
