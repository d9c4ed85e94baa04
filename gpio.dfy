/**
  The counter-pair protocol that switches one line of the firmware's
  virtual GPIO buffer (gpio_set in rpi3-gpiovirtbuf.c).

  Each 32-bit word of the shared page holds two 16-bit counters: the number
  of "enable" requests in the high half and the number of "disable"
  requests in the low half. The line is lit when the difference
  enables - disables, cast to a signed 16-bit number, is positive. To change
  the state the host bumps exactly one counter (with 16-bit wrap-around) and
  writes the repacked word back.

  The shared page itself (mapped from /dev/mem in the C program) is an
  array of 32-bit words.
*/
module VirtGpio {

  import opened Words

  /** The high half of a word (`word >> 16`): the enable counter. */
  function Enables(w: uint32): (r: uint16)
    ensures r as int * 0x1_0000 <= w as int < (r as int + 1) * 0x1_0000
  {
    (w / 0x1_0000) as uint16
  }

  /**
    The low half of a word (`(uint16_t)word`): the disable counter. A word
    below 2^16 is all disable counter; SplitPack gives the decomposition of
    every word into its two halves.
  */
  function Disables(w: uint32): (r: uint16)
    ensures w as int < 0x1_0000 ==> r == w as uint16
  {
    (w % 0x1_0000) as uint16
  }

  /**
    `(enables << 16) | disables`: the two halves do not overlap, so the
    bitwise or is a sum. Splitting the packed word gives the counters back.
  */
  function Pack(enables: uint16, disables: uint16): (w: uint32)
    ensures Enables(w) == enables && Disables(w) == disables
  {
    (enables as int * 0x1_0000 + disables as int) as uint32
  }

  /** Packing the two halves of a word gives the word back. */
  lemma SplitPack(w: uint32)
    ensures Pack(Enables(w), Disables(w)) == w
  {
  }

  /** `x++` on a uint16_t: 0xFFFF wraps to 0, so the counter always changes. */
  function Inc16(x: uint16): (r: uint16)
    ensures r != x
    ensures r == 0 <==> x == 0xFFFF
  {
    if x == 0xFFFF then 0 else x + 1
  }

  /** Inc16 is addition of one modulo 2^16. */
  lemma Inc16Wraps(x: uint16)
    ensures Inc16(x) as int == (x as int + 1) % 0x1_0000
  {
  }

  /**
    The conversion to int16_t of a difference of two uint16_t values: the
    value congruent to `x` modulo 2^16 in [-2^15, 2^15).
  */
  function ToInt16(x: int): (r: int)
    requires -0x1_0000 < x < 0x1_0000
    ensures -0x8000 <= r < 0x8000
  {
    if x >= 0x8000 then x - 0x1_0000
    else if x < -0x8000 then x + 0x1_0000
    else x
  }

  /** ToInt16 keeps the value modulo 2^16, and keeps every value already in range. */
  lemma ToInt16Congruent(x: int)
    requires -0x1_0000 < x < 0x1_0000
    ensures (ToInt16(x) - x) % 0x1_0000 == 0
    ensures -0x8000 <= x < 0x8000 ==> ToInt16(x) == x
  {
  }

  /**
    The signed difference `(int16_t)(enables - disables)` of two counters:
    a value of int16_t.
  */
  function CounterDiff(enables: uint16, disables: uint16): (r: int)
    ensures -0x8000 <= r < 0x8000
  {
    ToInt16(enables as int - disables as int)
  }

  /** The signed difference is zero exactly when the two counters are equal. */
  lemma CounterDiffZero(enables: uint16, disables: uint16)
    ensures CounterDiff(enables, disables) == 0 <==> enables == disables
  {
  }

  /** The signed difference held by a word. */
  function Diff(w: uint32): (r: int)
    ensures -0x8000 <= r < 0x8000
  {
    CounterDiff(Enables(w), Disables(w))
  }

  /**
    The derived line state: the signed difference is strictly positive.
    Equal counters leave the line unlit.
  */
  predicate Lit(w: uint32)
    ensures Enables(w) == Disables(w) ==> !Lit(w)
  {
    Diff(w) > 0
  }

  /** The line is lit exactly when enables is ahead of disables by 1 to 0x7FFF modulo 2^16. */
  lemma LitModular(w: uint32)
    ensures Lit(w) <==> 0 < (Enables(w) as int - Disables(w) as int) % 0x1_0000 < 0x8000
  {
  }

  /**
    The word gpio_set leaves behind when asked to switch the line on (`on`)
    or off: nothing changes when the derived state already matches,
    otherwise exactly one counter is bumped.
  */
  function SetWord(w: uint32, on: bool): (r: uint32)
    ensures on ==> Disables(r) == Disables(w)
    ensures !on ==> Enables(r) == Enables(w)
  {
    if Lit(w) == on then w
    else if on then Pack(Inc16(Enables(w)), Disables(w))
    else Pack(Enables(w), Inc16(Disables(w)))
  }

  /**
    gpio_set: reads addr[off], decides, and conditionally writes the word
    back. Only addr[off] may change, and it becomes SetWord of its old
    value; when the line already is in the requested state nothing is
    written.
  */
  method GpioSet(addr: array<uint32>, off: nat, val: int)
    requires off < addr.Length
    modifies addr
    ensures addr[off] == SetWord(old(addr[off]), val != 0)
    ensures forall i :: 0 <= i < addr.Length && i != off ==> addr[i] == old(addr[i])
    ensures Lit(old(addr[off])) == (val != 0) ==> addr[..] == old(addr[..])
  {
    var enables: uint16 := (addr[off] / 0x1_0000) as uint16;
    var disables: uint16 := (addr[off] % 0x1_0000) as uint16;
    var diff: int := ToInt16(enables as int - disables as int);
    var lit: bool := diff > 0;
    if (val != 0 && lit) || (val == 0 && !lit) {
      return;
    }
    if val != 0 {
      enables := Inc16(enables);
    } else {
      disables := Inc16(disables);
    }
    addr[off] := (enables as int * 0x1_0000 + disables as int) as uint32;
  }

  /** Bumping the enable counter from an unlit difference adds exactly one to it. */
  lemma IncEnablesDiff(enables: uint16, disables: uint16)
    requires CounterDiff(enables, disables) <= 0
    ensures CounterDiff(Inc16(enables), disables) == CounterDiff(enables, disables) + 1
  {
    var x := enables as int - disables as int;
    var y := Inc16(enables) as int - disables as int;
    assert y == x + 1 || y == x + 1 - 0x1_0000;
    ToInt16Shift(x, y - x - 1);
  }

  /** Bumping the disable counter from a lit difference takes exactly one from it. */
  lemma IncDisablesDiff(enables: uint16, disables: uint16)
    requires CounterDiff(enables, disables) > 0
    ensures CounterDiff(enables, Inc16(disables)) == CounterDiff(enables, disables) - 1
  {
    var x := enables as int - disables as int;
    var y := enables as int - Inc16(disables) as int;
    assert y == x - 1 || y == x - 1 + 0x1_0000;
    ToInt16Shift(y, x - y - 1);
  }

  /**
    Adding one, plus any multiple of 2^16, to a value whose int16_t image
    is not the largest one adds exactly one to that image.
  */
  lemma ToInt16Shift(x: int, k: int)
    requires k == 0 || k == -0x1_0000 || k == 0x1_0000
    requires -0x1_0000 < x < 0x1_0000 && -0x1_0000 < x + 1 + k < 0x1_0000
    requires ToInt16(x) != 0x7FFF
    ensures ToInt16(x + 1 + k) == ToInt16(x) + 1
  {
  }

  /**
    When a change is requested, exactly one counter moves by one (mod 2^16)
    and the signed difference moves by exactly +1 (on) or -1 (off); it
    never wraps, because "on" starts at or below 0 and "off" at or above 1.
  */
  lemma SetWordStep(w: uint32, on: bool)
    requires Lit(w) != on
    ensures var r := SetWord(w, on);
      if on then
        Enables(r) == Inc16(Enables(w)) && Disables(r) == Disables(w) && Diff(r) == Diff(w) + 1
      else
        Disables(r) == Inc16(Disables(w)) && Enables(r) == Enables(w) && Diff(r) == Diff(w) - 1
  {
    if on {
      IncEnablesDiff(Enables(w), Disables(w));
    } else {
      IncDisablesDiff(Enables(w), Disables(w));
    }
  }

  /**
    One call reaches the requested state exactly when the line is already
    there, or the difference is 0 and the line is switched on, or the
    difference is 1 and the line is switched off.
  */
  lemma SetWordReaches(w: uint32, on: bool)
    ensures Lit(SetWord(w, on)) == on
      <==> Lit(w) == on || (on && Diff(w) == 0) || (!on && Diff(w) == 1)
  {
    if Lit(w) != on {
      SetWordStep(w, on);
    }
  }

  /**
    A second identical request is a no-op exactly when the first one
    reached the requested state: idempotence holds from a difference of 0
    (on) or 1 (off), or when the line was already in that state.
  */
  lemma SetWordIdempotent(w: uint32, on: bool)
    ensures SetWord(SetWord(w, on), on) == SetWord(w, on)
      <==> Lit(w) == on || (on && Diff(w) == 0) || (!on && Diff(w) == 1)
  {
    SetWordReaches(w, on);
    var r := SetWord(w, on);
    if Lit(r) != on {
      SetWordStep(r, on);
    }
  }

  /**
    The word after `k` successive gpio_set calls with the same request.
    Repeated switch-on requests never touch the disable counter, and
    repeated switch-off requests never touch the enable counter.
  */
  function Repeat(w: uint32, on: bool, k: nat): (r: uint32)
    ensures on ==> Disables(r) == Disables(w)
    ensures !on ==> Enables(r) == Enables(w)
    decreases k
  {
    if k == 0 then w else Repeat(SetWord(w, on), on, k - 1)
  }

  /** How many calls it takes to reach the requested state from `w`. */
  function StepsToReach(w: uint32, on: bool): (n: nat)
    ensures n <= 0x8001
    ensures n == 0 <==> Lit(w) == on
  {
    if Lit(w) == on then 0 else if on then 1 - Diff(w) else Diff(w)
  }

  /**
    Repeating the same request converges: after StepsToReach(w, on) calls
    the line is in the requested state, and every call before that leaves
    it in the other state.
  */
  lemma {:induction false} RepeatConverges(w: uint32, on: bool, k: nat)
    requires k <= StepsToReach(w, on)
    ensures Lit(Repeat(w, on, k)) == on <==> k == StepsToReach(w, on)
    decreases k
  {
    if k > 0 {
      SetWordStep(w, on);
      RepeatConverges(SetWord(w, on), on, k - 1);
    }
  }

  /** Once the requested state is reached, further calls change nothing. */
  lemma {:induction false} RepeatStable(w: uint32, on: bool, k: nat)
    requires Lit(w) == on
    ensures Repeat(w, on, k) == w
    decreases k
  {
    if k > 0 {
      RepeatStable(SetWord(w, on), on, k - 1);
    }
  }

  /**
    Calls beyond StepsToReach change nothing: from then on the word is the
    one reached after StepsToReach calls, and the line is in the requested
    state.
  */
  lemma {:induction false} RepeatSettles(w: uint32, on: bool, k: nat)
    requires k >= StepsToReach(w, on)
    ensures Repeat(w, on, k) == Repeat(w, on, StepsToReach(w, on))
    ensures Lit(Repeat(w, on, k)) == on
    decreases k
  {
    if Lit(w) == on {
      RepeatStable(w, on, k);
    } else {
      StepsToReachStep(w, on);
      RepeatSettles(SetWord(w, on), on, k - 1);
      RepeatFirst(w, on, k);
      RepeatFirst(w, on, StepsToReach(w, on));
    }
  }

  /** A run of k > 0 calls is one call followed by k - 1 more. */
  lemma RepeatFirst(w: uint32, on: bool, k: nat)
    requires k > 0
    ensures Repeat(w, on, k) == Repeat(SetWord(w, on), on, k - 1)
  {
  }

  /** Every call that changes the word brings the line one call closer to the requested state. */
  lemma StepsToReachStep(w: uint32, on: bool)
    requires Lit(w) != on
    ensures StepsToReach(SetWord(w, on), on) == StepsToReach(w, on) - 1
  {
    SetWordStep(w, on);
  }

  /** The counters and the difference of a word given as enables * 2^16 + disables. */
  lemma WordCounters(w: uint32, enables: uint16, disables: uint16)
    requires w as int == enables as int * 0x1_0000 + disables as int
    ensures Enables(w) == enables && Disables(w) == disables
    ensures Diff(w) == ToInt16(enables as int - disables as int)
  {
  }

  /** The activity LED from a zeroed word: on, on again, then off. */
  lemma ActivityLedScenario()
    ensures SetWord(0x0000_0000, true) == 0x0001_0000
    ensures SetWord(0x0001_0000, true) == 0x0001_0000
    ensures SetWord(0x0001_0000, false) == 0x0001_0001
    ensures !Lit(0x0000_0000) && Lit(0x0001_0000) && !Lit(0x0001_0001)
  {
    WordCounters(0x0000_0000, 0, 0);
    WordCounters(0x0001_0000, 1, 0);
    WordCounters(0x0001_0001, 1, 1);
    assert ToInt16(1) == 1 && ToInt16(0) == 0;
  }

  /**
    A switch-on request need not light the line: from enables = 0xFFFF,
    disables = 0 the difference is -1, and the increment wraps enables to 0,
    leaving the difference at 0.
  */
  lemma WrappedEnablesStaysUnlit()
    ensures Diff(0xFFFF_0000) == -1
    ensures SetWord(0xFFFF_0000, true) == 0x0000_0000
    ensures Diff(SetWord(0xFFFF_0000, true)) == 0
  {
    WordCounters(0xFFFF_0000, 0xFFFF, 0);
    WordCounters(0x0000_0000, 0, 0);
    assert ToInt16(0xFFFF) == -1 && ToInt16(0) == 0;
  }

  /** From enables = 0, disables = 5 a switch-on request only moves the difference to -4. */
  lemma BehindByFiveStaysUnlit()
    ensures Diff(0x0000_0005) == -5
    ensures SetWord(0x0000_0005, true) == 0x0001_0005
    ensures Diff(SetWord(0x0000_0005, true)) == -4
  {
    WordCounters(0x0000_0005, 0, 5);
    WordCounters(0x0001_0005, 1, 5);
  }

  /**
    Three successive runs of the program with arguments 1, 1 and 0, each
    one gpio_set call on word 0, starting from a zeroed word 0 on a page
    whose other words hold whatever the firmware left there: word 0 ends at
    0x00010001 and no other word is touched.
  */
  method ActivityLedOnPage(page: array<uint32>)
    requires page.Length == 1024
    requires page[0] == 0
    modifies page
    ensures page[0] == 0x0001_0001
    ensures forall i :: 1 <= i < page.Length ==> page[i] == old(page[i])
  {
    ActivityLedScenario();
    GpioSet(page, 0, 1);
    assert page[0] == 0x0001_0000;
    GpioSet(page, 0, 1);
    assert page[0] == 0x0001_0000;
    GpioSet(page, 0, 0);
  }
}
