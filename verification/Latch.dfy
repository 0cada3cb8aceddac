/** The latch of flatch.hpp, without the timeout of `wait`. */
module Latches {
  const UINT32_COUNT: nat := 0x1_0000_0000

  type uint32 = n: nat | n < UINT32_COUNT

  datatype LatchState = LatchState(count: uint32, signal: bool)

  function NewLatch(count: uint32): LatchState {
    LatchState(count, false)
  }

  /** The atomic part of `count_down`: the counter wraps around, and the answer says whether it is now 0. */
  function Decremented(l: LatchState): (LatchState, bool) {
    var count := (l.count + UINT32_COUNT - 1) % UINT32_COUNT;
    (l.(count := count), count == 0)
  }

  /** The section of `count_down` that holds the mutex. */
  function Released(l: LatchState): LatchState {
    l.(signal := true)
  }

  class Latch {
    var count: uint32
    var signal: bool

    ghost function State(): LatchState
      reads this
    {
      LatchState(count, signal)
    }

    constructor (count: uint32)
      ensures State() == NewLatch(count)
    {
      this.count, signal := count, false;
    }

    /** The atomic decrement; only the thread that gets true goes on to `Release`. */
    method Decrement() returns (isZero: bool)
      modifies this
      ensures (State(), isZero) == Decremented(old(State()))
      ensures count == (if old(count) == 0 then 0xFFFF_FFFF else old(count) - 1) && signal == old(signal)
      ensures isZero <==> count == 0
    {
      if count == 0 {
        count := UINT32_COUNT - 1;
      } else {
        count := count - 1;
      }
      return count == 0;
    }

    method Release()
      modifies this
      ensures State() == Released(old(State()))
      ensures signal && count == old(count)
    {
      signal := true;
    }

    /** `count_down` without another thread in between. */
    method CountDown()
      modifies this
      ensures var (next, isZero) := Decremented(old(State())); State() == if isZero then Released(next) else next
    {
      var isZero := Decrement();
      if isZero {
        Release();
      }
    }

    /** The loop of `wait` at one test of the signal: whether the thread parks. */
    method WaitTest() returns (parks: bool)
      ensures parks <==> !State().signal
    {
      return !signal;
    }
  }
}
