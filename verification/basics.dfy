/** Small shared vocabulary: optional values, results, the source's fixed-width
    integer types and the few string operations the other modules need. */
module Basics {

  datatype Option<+T> = None | Some(value: T) {
    /** `unwrap_or`: the carried value, or `default` when there is none. */
    function GetOr(default: T): T {
      if Some? then value else default
    }
  }

  /** A failure-compatible result, so that `:-` propagates errors as Rust's `?` does. */
  datatype Result<+T, +E> = Ok(value: T) | Err(error: E) {
    predicate IsFailure() {
      Err?
    }

    function PropagateFailure<U>(): Result<U, E>
      requires Err?
    {
      Err(error)
    }

    function Extract(): T
      requires Ok?
    {
      value
    }
  }

  /** Rust's `u8`. */
  type uint8 = x: int | 0 <= x < 0x100

  const U64_MAX: int := 0xFFFF_FFFF_FFFF_FFFF

  /** Rust's `u64`. */
  type uint64 = x: int | 0 <= x <= U64_MAX

  predicate IsAsciiUpper(c: char) {
    'A' <= c <= 'Z'
  }

  function AsciiLower(c: char): char {
    if IsAsciiUpper(c) then (c as int + 32) as char else c
  }

  /** `to_lowercase`, restricted to ASCII letters. */
  function Lower(s: string): string {
    seq(|s|, i requires 0 <= i < |s| => AsciiLower(s[i]))
  }

  /** A string with no upper-case ASCII letter is its own lower-case form. */
  lemma LowerOfLowerCase(s: string)
    requires forall i :: 0 <= i < |s| ==> !IsAsciiUpper(s[i])
    ensures Lower(s) == s
  {
  }

  /** The index of the last occurrence of `c` in `s`, if any. */
  function LastIndex(s: string, c: char): (r: Option<nat>)
    ensures r.None? ==> c !in s
    ensures r.Some? ==> r.value < |s| && s[r.value] == c && c !in s[r.value + 1..]
  {
    if s == [] then None
    else if s[|s| - 1] == c then Some(|s| - 1)
    else
      assert s == s[..|s| - 1] + [s[|s| - 1]];
      LastIndex(s[..|s| - 1], c)
  }

  /** Appending text without `c` does not move the last `c`. */
  lemma {:induction false} LastIndexAppendWithout(s: string, t: string, c: char)
    requires c !in t
    ensures LastIndex(s + t, c) == LastIndex(s, c)
    decreases |t|
  {
    if t == [] {
      assert s + t == s;
    } else {
      var n := |t| - 1;
      var u := t[..n];
      assert t == u + [t[n]];
      assert t[n] != c;
      var st := s + t;
      assert st[|st| - 1] == t[n];
      assert st[..|st| - 1] == s + u;
      assert LastIndex(st, c) == LastIndex(s + u, c);
      LastIndexAppendWithout(s, u, c);
    }
  }

  /** Prepending text shifts the last `c` of `t` by the length of the prefix. */
  lemma {:induction false} LastIndexPrepend(s: string, t: string, c: char)
    requires c in t
    ensures LastIndex(s + t, c) == Some(|s| + LastIndex(t, c).value)
    decreases |t|
  {
    var n := |t| - 1;
    var st := s + t;
    assert st[|st| - 1] == t[n];
    if t[n] == c {
      assert LastIndex(t, c) == Some(n);
      assert LastIndex(st, c) == Some(|st| - 1);
    } else {
      var u := t[..n];
      assert t == u + [t[n]];
      assert c in u;
      assert st[..|st| - 1] == s + u;
      assert LastIndex(st, c) == LastIndex(s + u, c);
      assert LastIndex(t, c) == LastIndex(u, c);
      LastIndexPrepend(s, u, c);
    }
  }
}
