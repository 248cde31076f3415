/** Packets and the small value types the other modules use (includes/wf_conn.h). */
module Packets {

  datatype Option<+T> = None | Some(value: T)

  datatype Direction = LeftToRight | RightToLeft

  /** A C array indexed by direction. */
  datatype PerDirection<T> = PerDirection(lr: T, rl: T) {
    function Get(d: Direction): T {
      if d == LeftToRight then lr else rl
    }

    function Set(d: Direction, v: T): PerDirection<T> {
      if d == LeftToRight then this.(lr := v) else this.(rl := v)
    }
  }

  /** One heap copy of a frame. `copy` stands for the address of the copy: no two copies share it. */
  datatype Packet = Packet(copy: nat, len: nat, direction: Direction)

  /** A timerfd: when it was armed, and for when. */
  datatype Timer = Disarmed | Armed(at: nat, deadline: nat)

  /** The number of values of a C `unsigned int`. */
  const UINT_RANGE: nat := 0x1_0000_0000

  type UInt = n: nat | n < UINT_RANGE

  /** An integer stored into an `unsigned int`. */
  function Wrap(x: int): UInt {
    x % UINT_RANGE
  }

  function Max(a: int, b: int): int {
    if a < b then b else a
  }
}
