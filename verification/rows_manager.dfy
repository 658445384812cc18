/**
  The rows manager of a metric: one slot per call path that holds that
  call path's row of values, NULL, or the "no row" sentinel. Rows come
  from a rows supplier, chosen once: a file supplier when the data and
  index placements are known, the in-memory supplier (whose rows are
  never dropped) otherwise. Rows are fetched lazily and dropped on demand.

  The suppliers' bytes are abstract: `fetch(id, forWriting)` is what the
  chosen supplier's `provideRow` answers (NULL as `None`), `correct` is the
  row interface's endianness correction, and each supplier's `probe` is a
  given boolean.
*/
module RowsManager {
  import opened CubeTypes

  /** `(uint64_t)-1`, the "unknown" placement field. */
  const Uint64Max: nat := 0xFFFF_FFFF_FFFF_FFFF

  /** A file placement: file name, offset and size. */
  datatype FilePlace = FilePlace(name: string, offset: nat, size: nat)

  /** The rows suppliers: read-only, read-only compressed, write-only
      compressed, write-only, and the in-memory one. */
  datatype SupplierKind = RO | ROZ | WOZ | WO | Memory

  /** What each supplier's `probe` answers for the placements at hand. */
  datatype Probes = Probes(ro: bool, roz: bool, woz: bool, wo: bool, memory: bool)

  /** One row slot. */
  datatype Slot<R> = Null | Sentinel | Present(row: R)

  datatype ManagerError = CannotSelectRowSupplier | OutOfRange(id: nat)

  /** The manager's state:
      - `supplier` the chosen rows supplier, `noDrop` whether rows are kept;
      - `slots` the row slots, by call-path id;
      - `dropped` the ids handed to the supplier's `dropRow`, in order;
      - `finalized` whether the supplier was finalized. */
  datatype Manager<R> = Manager(
    supplier: SupplierKind,
    noDrop: bool,
    slots: seq<Slot<R>>,
    dropped: seq<nat>,
    finalized: bool)

  /** Whether all four placement fields are known. */
  predicate PlacementKnown(data: FilePlace, index: FilePlace)
  {
    data.offset != Uint64Max && index.offset != Uint64Max && data.size != Uint64Max && index.size != Uint64Max
  }

  /** The file suppliers, in the order they are probed. */
  const FileOrder: seq<SupplierKind> := [RO, ROZ, WOZ, WO]

  predicate Probe(p: Probes, k: SupplierKind)
  {
    match k
    case RO => p.ro
    case ROZ => p.roz
    case WOZ => p.woz
    case WO => p.wo
    case Memory => p.memory
  }

  /** `selectRowsSupplier(data, index, ...)`: the first file supplier
      whose probe succeeds; none succeeding is an error. */
  function SelectFileSupplier(p: Probes): (r: Result<SupplierKind, ManagerError>)
    ensures r.Success? ==> exists i :: 0 <= i < |FileOrder| && FileOrder[i] == r.value && Probe(p, FileOrder[i])
                                       && forall j :: 0 <= j < i ==> !Probe(p, FileOrder[j])
    ensures r.Failure? <==> forall i :: 0 <= i < |FileOrder| ==> !Probe(p, FileOrder[i])
    ensures r.Failure? ==> r.error == CannotSelectRowSupplier
  {
    if p.ro then assert FileOrder[0] == RO; Success(RO)
    else if p.roz then assert FileOrder[1] == ROZ; Success(ROZ)
    else if p.woz then assert FileOrder[2] == WOZ; Success(WOZ)
    else if p.wo then assert FileOrder[3] == WO; Success(WO)
    else Failure(CannotSelectRowSupplier)
  }

  /** `selectRowsSupplier(...)` without placements: the in-memory supplier
      if its probe succeeds, an error otherwise. */
  function SelectMemorySupplier(p: Probes): (r: Result<SupplierKind, ManagerError>)
    ensures r.Success? <==> p.memory
    ensures r.Success? ==> r.value == Memory
  {
    if p.memory then Success(Memory) else Failure(CannotSelectRowSupplier)
  }

  /** The slots after the strategy's wanted rows are fetched: only NULL
      slots are filled, and only with rows the supplier has. A wanted id
      beyond the slots is an error. */
  function FillWanted<R>(slots: seq<Slot<R>>, wanted: seq<nat>, fetch: (nat, bool) -> Option<R>, correct: R -> R)
    : (r: Result<seq<Slot<R>>, ManagerError>)
    ensures r.Failure? <==> exists k :: 0 <= k < |wanted| && wanted[k] >= |slots|
    ensures r.Success? ==> |r.value| == |slots|
    ensures r.Success? ==> forall i :: 0 <= i < |slots| && !slots[i].Null? ==> r.value[i] == slots[i]
    ensures r.Success? ==> forall i :: 0 <= i < |slots| && slots[i].Null? && i !in wanted ==> r.value[i].Null?
    ensures r.Success? ==> forall i :: 0 <= i < |slots| && slots[i].Null? && i in wanted
                             ==> r.value[i] == (if fetch(i, false).Some? then Present(correct(fetch(i, false).value)) else Null)
    decreases |wanted|
  {
    if |wanted| == 0 then Success(slots)
    else
      var id := wanted[0];
      if id >= |slots| then Failure(OutOfRange(id))
      else
        var filled := if slots[id].Null? && fetch(id, false).Some? then slots[id := Present(correct(fetch(id, false).value))]
                      else slots;
        var rest := FillWanted(filled, wanted[1..], fetch, correct);
        assert forall k :: 0 < k < |wanted| ==> wanted[k] == wanted[1..][k - 1];
        assert forall i :: i in wanted <==> i == id || i in wanted[1..];
        rest
  }

  /** `setStrategy`: fill the slots the strategy wants. */
  function SetStrategy<R>(m: Manager<R>, wanted: seq<nat>, fetch: (nat, bool) -> Option<R>, correct: R -> R)
    : (r: Result<Manager<R>, ManagerError>)
    ensures r.Success? ==> r.value.supplier == m.supplier && r.value.noDrop == m.noDrop && r.value.dropped == m.dropped
    ensures r.Success? <==> FillWanted(m.slots, wanted, fetch, correct).Success?
  {
    match FillWanted(m.slots, wanted, fetch, correct)
    case Failure(e) => Failure(e)
    case Success(s) => Success(m.(slots := s))
  }

  /** The constructor: choose the supplier (the in-memory one, which keeps
      its rows, when any placement field is unknown), then apply the
      strategy to the given slots. */
  function Create<R>(data: FilePlace, index: FilePlace, p: Probes, slots: seq<Slot<R>>, wanted: seq<nat>,
                     fetch: (nat, bool) -> Option<R>, correct: R -> R): (r: Result<Manager<R>, ManagerError>)
    ensures r.Success? ==> (r.value.supplier == Memory <==> !PlacementKnown(data, index))
    ensures r.Success? ==> (r.value.noDrop <==> !PlacementKnown(data, index))
    ensures r.Success? ==> r.value.dropped == [] && !r.value.finalized
    ensures PlacementKnown(data, index) && !p.ro && !p.roz && !p.woz && !p.wo ==> r == Failure(CannotSelectRowSupplier)
    ensures !PlacementKnown(data, index) && !p.memory ==> r == Failure(CannotSelectRowSupplier)
  {
    var known := PlacementKnown(data, index);
    var chosen := if known then SelectFileSupplier(p) else SelectMemorySupplier(p);
    match chosen
    case Failure(e) => Failure(e)
    case Success(k) => SetStrategy(Manager(k, !known, slots, [], false), wanted, fetch, correct)
  }

  /** Whether `provideRow` asks the supplier: the slot is NULL (or beyond
      the slots), or the row is wanted for writing and the slot is the
      sentinel. */
  predicate NeedsFetch<R>(m: Manager<R>, id: nat, forWriting: bool)
  {
    id >= |m.slots| || m.slots[id].Null? || (forWriting && m.slots[id].Sentinel?)
  }

  /** `provideRow`: fetch the row if the slot needs it and store the
      corrected row if the supplier has one. The store is unchecked, so an
      id beyond the slots is only allowed when the supplier has no row. */
  function ProvideRow<R>(m: Manager<R>, id: nat, forWriting: bool, fetch: (nat, bool) -> Option<R>, correct: R -> R)
    : (r: Manager<R>)
    requires id < |m.slots| || fetch(id, forWriting).None?
    ensures r.supplier == m.supplier && r.noDrop == m.noDrop && r.dropped == m.dropped && |r.slots| == |m.slots|
    ensures forall i :: 0 <= i < |m.slots| && i != id ==> r.slots[i] == m.slots[i]
    ensures id < |m.slots| && m.slots[id].Present? ==> r == m
    ensures NeedsFetch(m, id, forWriting) && fetch(id, forWriting).Some?
            ==> r.slots[id] == Present(correct(fetch(id, forWriting).value))
    ensures !(NeedsFetch(m, id, forWriting) && fetch(id, forWriting).Some?) ==> r == m
  {
    if NeedsFetch(m, id, forWriting) then
      match fetch(id, forWriting)
      case None => m
      case Some(row) => m.(slots := m.slots[id := Present(correct(row))])
    else m
  }

  /** A second `provideRow` right after a successful one does not fetch
      again: the row it stored is never replaced. */
  lemma ProvideTwiceFetchesOnce<R>(m: Manager<R>, id: nat, forWriting: bool, fetch: (nat, bool) -> Option<R>,
                                   correct: R -> R)
    requires id < |m.slots|
    requires fetch(id, forWriting).Some? && NeedsFetch(m, id, forWriting)
    ensures !NeedsFetch(ProvideRow(m, id, forWriting, fetch, correct), id, forWriting)
    ensures ProvideRow(ProvideRow(m, id, forWriting, fetch, correct), id, forWriting, fetch, correct)
         == ProvideRow(m, id, forWriting, fetch, correct)
  {
  }

  /** `dropRow`: unless rows are kept, hand the slot to the supplier and
      clear it, except the sentinel, which stays. An id beyond the slots is
      an error. */
  function DropRow<R>(m: Manager<R>, id: nat): (r: Result<Manager<R>, ManagerError>)
    ensures m.noDrop ==> r == Success(m)
    ensures !m.noDrop ==> (r.Failure? <==> id >= |m.slots|)
    ensures r.Success? ==> |r.value.slots| == |m.slots| && r.value.supplier == m.supplier && r.value.noDrop == m.noDrop
    ensures r.Success? ==> forall i :: 0 <= i < |m.slots| && i != id ==> r.value.slots[i] == m.slots[i]
    ensures r.Success? && !m.noDrop && m.slots[id].Sentinel? ==> r.value == m
    ensures r.Success? && !m.noDrop && !m.slots[id].Sentinel?
            ==> r.value.slots[id].Null? && r.value.dropped == m.dropped + [id]
  {
    if m.noDrop then Success(m)
    else if id >= |m.slots| then Failure(OutOfRange(id))
    else if m.slots[id].Sentinel? then Success(m)
    else Success(m.(slots := m.slots[id := Null], dropped := m.dropped + [id]))
  }

  /** After a row is dropped, the next `provideRow` fetches it again. */
  lemma DropThenProvideRefetches<R>(m: Manager<R>, id: nat, forWriting: bool, fetch: (nat, bool) -> Option<R>,
                                    correct: R -> R)
    requires !m.noDrop && id < |m.slots| && m.slots[id].Present?
    ensures DropRow(m, id).Success?
    ensures NeedsFetch(DropRow(m, id).value, id, forWriting)
    ensures fetch(id, forWriting).Some?
            ==> ProvideRow(DropRow(m, id).value, id, forWriting, fetch, correct).slots[id]
                == Present(correct(fetch(id, forWriting).value))
  {
  }

  /** The ids of present slots below `n`, ascending. */
  function PresentIds<R>(slots: seq<Slot<R>>, n: nat): (ids: seq<nat>)
    requires n <= |slots|
    ensures forall k :: 0 <= k < |ids| ==> ids[k] < n && slots[ids[k]].Present?
  {
    if n == 0 then [] else PresentIds(slots, n - 1) + (if slots[n - 1].Present? then [n - 1] else [])
  }

  /** `dropAllRows`: unless rows are kept, every present row is handed to
      the supplier, in slot order, and its slot cleared; NULL and sentinel
      slots stay as they are. */
  method DropAllRows<R>(m: Manager<R>) returns (r: Manager<R>)
    ensures m.noDrop ==> r == m
    ensures r.supplier == m.supplier && r.noDrop == m.noDrop && r.finalized == m.finalized
    ensures |r.slots| == |m.slots|
    ensures !m.noDrop ==> forall i :: 0 <= i < |m.slots| ==> r.slots[i].Null? || r.slots[i].Sentinel?
    ensures forall i :: 0 <= i < |m.slots| && !m.slots[i].Present? ==> r.slots[i] == m.slots[i]
    ensures !m.noDrop ==> r.dropped == m.dropped + PresentIds(m.slots, |m.slots|)
  {
    r := m;
    if m.noDrop {
      return;
    }
    var cid := 0;
    while cid < |m.slots|
      invariant 0 <= cid <= |m.slots|
      invariant r.supplier == m.supplier && r.noDrop == m.noDrop && r.finalized == m.finalized
      invariant |r.slots| == |m.slots|
      invariant forall i :: 0 <= i < cid ==> r.slots[i].Null? || r.slots[i].Sentinel?
      invariant forall i :: 0 <= i < |m.slots| && (i >= cid || !m.slots[i].Present?) ==> r.slots[i] == m.slots[i]
      invariant r.dropped == m.dropped + PresentIds(m.slots, cid)
    {
      if r.slots[cid].Present? {
        r := r.(slots := r.slots[cid := Null], dropped := r.dropped + [cid]);
      }
      cid := cid + 1;
    }
  }

  /** `finalize`: the supplier is finalized; the slots stay. */
  function Finalize<R>(m: Manager<R>): (r: Manager<R>)
    ensures r.finalized && r.slots == m.slots && r.dropped == m.dropped && r.noDrop == m.noDrop
  {
    m.(finalized := true)
  }
}
