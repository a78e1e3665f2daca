/** Small optional-value and outcome datatypes, and two sequence facts, shared by the modules of this model. */
module Wrappers {

  /** PHP's `null`-or-value, as used for optional fields such as `maxtime` or `wid`. */
  datatype Option<+T> = None | Some(value: T) {

    /** The value, or `default` when absent (PHP's `is_null($x) ? $default : $x`). */
    function GetOr(default: T): T {
      match this
      case Some(v) => v
      case None => default
    }
  }

  /** A value, or the message of the exception that was thrown instead. */
  datatype Result<+T> = Ok(value: T) | Err(message: string)

  /** Concatenation regroups freely; stated once so that proofs need not rediscover it elementwise. */
  lemma AppendAssoc<T>(a: seq<T>, b: seq<T>, c: seq<T>)
    ensures a + b + c == a + (b + c)
  {
  }

  lemma SnocPair<T>(a: seq<T>, x: T, y: T)
    ensures a + [x] + [y] == a + [x, y]
  {
  }

  lemma TakeSnoc<T>(s: seq<T>, i: nat)
    requires i < |s|
    ensures s[..i + 1] == s[..i] + [s[i]]
  {
  }

  /** A clock whose successive readings strictly increase reads a later value at every later index. */
  lemma {:induction false} ClockMonotone(clock: nat -> int, a: nat, b: nat)
    requires forall k: nat :: clock(k) < clock(k + 1)
    requires a < b
    ensures clock(a) < clock(b)
    decreases b - a
  {
    if a + 1 < b {
      ClockMonotone(clock, a + 1, b);
    }
  }
}
