/** String helpers with the semantics of the Rust standard library calls the program makes, on ASCII. */
module Text {

  /** `char::to_lowercase` restricted to ASCII letters. */
  function LowerChar(c: char): char {
    if 'A' <= c <= 'Z' then (c as int + 32) as char else c
  }

  /** `str::to_lowercase`, character by character. */
  function Lower(s: string): (r: string)
    ensures |r| == |s|
    ensures forall i :: 0 <= i < |s| ==> r[i] == LowerChar(s[i])
  {
    seq(|s|, i requires 0 <= i < |s| => LowerChar(s[i]))
  }

  lemma LowerAppend(a: string, b: string)
    ensures Lower(a + b) == Lower(a) + Lower(b)
  {
    assert forall i :: 0 <= i < |a + b| ==> Lower(a + b)[i] == (Lower(a) + Lower(b))[i];
  }

  /** A string none of whose characters lowers to `c` has no `c` once lowered. */
  lemma LowerAvoids(s: string, c: char)
    requires forall x :: x in s ==> LowerChar(x) != c
    ensures c !in Lower(s)
  {
    forall i | 0 <= i < |s|
      ensures Lower(s)[i] != c
    {
      assert s[i] in s;
    }
  }

  predicate StartsWith(s: string, t: string) {
    |t| <= |s| && s[..|t|] == t
  }

  /** `str::contains`: `t` occurs in `s` at some position. */
  predicate Contains(s: string, t: string)
    decreases |s|
  {
    StartsWith(s, t) || (|s| > 0 && Contains(s[1..], t))
  }

  /** A string that lacks a character of `t` cannot contain `t`. */
  lemma {:induction false} MissingCharNotContained(s: string, t: string, c: char)
    requires c in t && c !in s
    ensures !Contains(s, t)
    decreases |s|
  {
    if |t| <= |s| {
      var j :| 0 <= j < |t| && t[j] == c;
      assert s[j] in s;
      assert s[..|t|][j] != t[j];
    }
    if |s| > 0 {
      assert forall x :: x in s[1..] ==> x in s;
      MissingCharNotContained(s[1..], t, c);
    }
  }

  /**
   * When `a` does not contain `t` and ends in a character that `t` lacks, no occurrence of
   * `t` in `a + b` can start inside `a`, so `a + b` contains `t` exactly when `b` does.
   */
  lemma {:induction false} ContainsAfterSeparator(a: string, b: string, t: string)
    requires |a| > 0 && a[|a| - 1] !in t && !Contains(a, t)
    ensures Contains(a + b, t) <==> Contains(b, t)
    decreases |a|
  {
    if |t| <= |a| {
      assert (a + b)[..|t|] == a[..|t|];
    } else if |t| <= |a + b| {
      assert (a + b)[..|t|][|a| - 1] == a[|a| - 1];
      assert t[|a| - 1] in t;
    }
    assert !StartsWith(a + b, t);
    assert (a + b)[1..] == a[1..] + b;
    if |a| > 1 {
      assert a[1..][|a[1..]| - 1] == a[|a| - 1];
      ContainsAfterSeparator(a[1..], b, t);
    } else {
      assert a[1..] + b == b;
    }
  }

  function DigitChar(d: nat): (c: char)
    requires d < 10
    ensures '0' <= c <= '9'
  {
    "0123456789"[d]
  }

  /** Decimal rendering of a natural number, as `format!("{}", n)` writes an unsigned integer. */
  function NatToString(n: nat): (r: string)
    ensures |r| > 0
    ensures forall i :: 0 <= i < |r| ==> '0' <= r[i] <= '9'
    decreases n
  {
    if n < 10 then [DigitChar(n)] else NatToString(n / 10) + [DigitChar(n % 10)]
  }
}
