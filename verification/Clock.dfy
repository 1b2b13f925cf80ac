/** A monotone clock whose reading may differ at every read. */
module MonotoneClock {

  // `ticks(k)` is what the k-th read returns.  Every program point that asks for
  // the time advances `pos`, so two reads in one call are two instants.
  class Clock {
    const ticks: nat -> int
    var pos: nat

    ghost predicate Valid() {
      forall i: nat, j: nat | i <= j :: ticks(i) <= ticks(j)
    }

    /** The instant the next read will return. */
    ghost function Now(): int
      reads this
    {
      ticks(pos)
    }

    constructor (ticks: nat -> int)
      requires forall i: nat, j: nat | i <= j :: ticks(i) <= ticks(j)
      ensures Valid() && pos == 0 && this.ticks == ticks
    {
      this.ticks := ticks;
      pos := 0;
    }

    method Read() returns (t: int)
      modifies this
      ensures t == old(Now()) && pos == old(pos) + 1
    {
      t := ticks(pos);
      pos := pos + 1;
    }
  }
}
