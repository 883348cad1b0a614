/** The in-memory counter of one quota id: an atomic byte total, an atomic
    dirty flag, and the compare-and-swap loop that is the only way to move it. */
module QuotaCounters {
  import opened Prelude

  datatype QuotaError = QuotaExceeded(current: nat, hypothetical: nat, limit: nat)

  /** What the rest of the world does between a thread's load of the counter
      and its next compare-and-swap: the weak exchange fails for no reason, or
      another thread stores a value of its own. */
  datatype Interference = Spurious | Stored(value: nat)

  /** The total that replacing `oldSize` bytes by `newSize` bytes asks for. */
  function DeltaTotal(current: nat, oldSize: nat, newSize: nat): nat {
    SatAdd(SatSub(current, oldSize), newSize)
  }

  /** The arithmetic is exact precisely when neither end of `u64` is hit. */
  lemma DeltaExactIff(current: nat, oldSize: nat, newSize: nat)
    requires newSize <= U64_MAX
    ensures DeltaTotal(current, oldSize, newSize) == current - oldSize + newSize
       <==> oldSize <= current && current - oldSize + newSize <= U64_MAX
  {
  }

  /** And where it is not: nothing is left of a counter that held less than the old
      size, and a sum beyond 64 bits stops at their end. */
  lemma DeltaClamped(current: nat, oldSize: nat, newSize: nat)
    ensures DeltaTotal(current, oldSize, newSize)
            == if oldSize > current then (if newSize > U64_MAX then U64_MAX else newSize)
               else if current - oldSize + newSize > U64_MAX then U64_MAX
               else current - oldSize + newSize
  {
  }

  /** Value left in the counter by the interference alone. */
  function Interfered(start: nat, schedule: seq<Interference>): nat {
    if schedule == [] then start
    else
      var last := schedule[|schedule| - 1];
      if last.Stored? then last.value else Interfered(start, schedule[..|schedule| - 1])
  }

  /** What one turn of the exchange loop does, given the value it loaded and the
      value the counter holds when the exchange is tried. */
  datatype Turn = Refuse(total: nat) | Land(total: nat) | Reload(value: nat)

  function ExchangeTurn(loaded: nat, held: nat, oldSize: nat, newSize: nat, limit: nat, spurious: bool): Turn {
    var total := DeltaTotal(loaded, oldSize, newSize);
    if total > limit then Refuse(total)
    else if !spurious && held == loaded then Land(total)
    else Reload(held)
  }

  class QuotaCounter {
    var bytes: nat
    var dirty: bool

    constructor (initial: nat)
      ensures bytes == initial && !dirty
    {
      bytes, dirty := initial, false;
    }

    method Reset()
      modifies this
      ensures bytes == 0 && dirty
    {
      bytes := 0;
      dirty := true;
    }

    /** Runs against any finite schedule of interference. `used` is how much of
        the schedule had happened when the call took effect: on success the
        call moved the counter in one step from the value it held at that point;
        on rejection it stored nothing, and the value it was judged against is
        the one the counter held. */
    method ApplyDelta(oldSize: nat, newSize: nat, limit: nat, schedule: seq<Interference>)
      returns (r: Result<nat, QuotaError>, used: nat)
      modifies this
      ensures used <= |schedule|
      ensures r.Ok? ==>
                var before := Interfered(old(bytes), schedule[..used]);
                && r.value == DeltaTotal(before, oldSize, newSize) <= limit
                && bytes == r.value && dirty
      ensures r.Err? ==>
                && bytes == r.error.current == Interfered(old(bytes), schedule[..used])
                && dirty == old(dirty)
                && r.error.hypothetical == DeltaTotal(r.error.current, oldSize, newSize) > limit
    {
      var current := bytes;
      used := 0;
      while true
        invariant 0 <= used <= |schedule|
        invariant bytes == current == Interfered(old(bytes), schedule[..used])
        invariant dirty == old(dirty)
        decreases |schedule| - used
      {
        ghost var loaded := current;
        var total := DeltaTotal(current, oldSize, newSize);
        if total > limit {
          assert ExchangeTurn(loaded, bytes, oldSize, newSize, limit, false) == Refuse(total);
          r := Err(QuotaExceeded(current, total, limit));
          return;
        }
        var spurious := false;
        if used < |schedule| {
          assert schedule[..used + 1][..used] == schedule[..used];
          if schedule[used].Stored? {
            bytes := schedule[used].value;
          } else {
            spurious := true;
          }
          used := used + 1;
        }
        ghost var turn := ExchangeTurn(loaded, bytes, oldSize, newSize, limit, spurious);
        if !spurious && bytes == current {
          assert turn == Land(total);
          bytes := total;
          dirty := true;
          r := Ok(total);
          return;
        }
        current := bytes;
        assert turn == Reload(current);
      }
    }
  }
}
