/**
  JavaScript values the truss editor works with: strings as sequences of
  UTF-16 code units, two-element numeric arrays, and the array primitives
  (`indexOf`, `splice`, two-element `sort`) its code relies on.
 */
module JsValues {

  /** A UTF-16 code unit; a JavaScript string is a sequence of these. */
  type CodeUnit = c: int | 0 <= c < 0x1_0000

  type JsString = seq<CodeUnit>

  /** `String.fromCharCode(n)` for an integer `n`: the code unit `n` modulo 2^16. */
  function FromCharCode(n: int): (s: JsString)
    ensures |s| == 1 && (0 <= n < 0x1_0000 ==> s[0] == n)
  {
    [n % 0x1_0000]
  }

  /** A two-element numeric array `[x, y]`: a position or a displacement. */
  datatype Vec = Vec(x: real, y: real)

  datatype Option<T> = None | Some(value: T)

  /** The outcome of a JavaScript call that either returns a value or throws. */
  datatype Result<T, E> = Ok(value: T) | Err(error: E)

  /** No element occurs twice. */
  predicate NoDup<T(==)>(s: seq<T>) {
    forall i, j :: 0 <= i < j < |s| ==> s[i] != s[j]
  }

  /** Two lists without repeats and without common elements concatenate to one without repeats. */
  lemma NoDupConcat<T>(a: seq<T>, b: seq<T>)
    requires NoDup(a) && NoDup(b)
    requires forall x :: x in a ==> x !in b
    ensures NoDup(a + b)
  {
    forall i, j | 0 <= i < j < |a + b|
      ensures (a + b)[i] != (a + b)[j]
    {
      if i < |a| && |a| <= j {
        assert (a + b)[i] in a && (a + b)[j] in b;
      }
    }
  }

  /** `s.indexOf(x)`: the first position of `x`, or -1 when it is absent. */
  function IndexOf<T(==)>(s: seq<T>, x: T): (r: int)
    ensures -1 <= r < |s|
    ensures r == -1 <==> x !in s
    ensures 0 <= r ==> s[r] == x && x !in s[..r]
  {
    if |s| == 0 then -1
    else if s[0] == x then 0
    else
      var k := IndexOf(s[1..], x);
      if k == -1 then -1
      else
        assert s[..k + 1] == [s[0]] + s[1..][..k];
        k + 1
  }

  /** The list without its first occurrence of `x` (unchanged when `x` is absent). */
  function RemoveFirst<T(==)>(s: seq<T>, x: T): seq<T> {
    if s == [] then []
    else if s[0] == x then s[1..]
    else [s[0]] + RemoveFirst(s[1..], x)
  }

  /** A list without `x` is left as it is. */
  lemma {:induction false} RemoveFirstAbsent<T>(s: seq<T>, x: T)
    requires x !in s
    ensures RemoveFirst(s, x) == s
  {
    if s != [] {
      RemoveFirstAbsent(s[1..], x);
    }
  }

  /** Splicing out position `i`, the first occurrence of `x`, is `RemoveFirst(s, x)`:
      `i = s.indexOf(x); if (i > -1) s.splice(i, 1)` leaves exactly that. */
  lemma {:induction false} SpliceIsRemoveFirst<T>(s: seq<T>, x: T, i: nat)
    requires i < |s| && s[i] == x && x !in s[..i]
    ensures RemoveFirst(s, x) == s[..i] + s[i + 1..]
  {
    if i == 0 {
      assert s[..0] + s[1..] == s[1..];
    } else {
      var t := s[1..];
      assert t[..i - 1] == s[1..i];
      SpliceIsRemoveFirst(t, x, i - 1);
      calc {
        RemoveFirst(s, x);
        [s[0]] + (t[..i - 1] + t[i..]);
        { assert [s[0]] + t[..i - 1] == s[..i]; assert t[i..] == s[i + 1..]; }
        s[..i] + s[i + 1..];
      }
    }
  }

  /** Splicing out the first `x` removes one element, that element is `x`,
      and a list without repeats keeps none and stays without repeats. */
  lemma {:induction false} RemoveFirstFacts<T>(s: seq<T>, x: T)
    ensures |RemoveFirst(s, x)| == if x in s then |s| - 1 else |s|
    ensures forall y :: y in RemoveFirst(s, x) ==> y in s
    ensures forall y :: y in s && y != x ==> y in RemoveFirst(s, x)
    ensures NoDup(s) ==> NoDup(RemoveFirst(s, x)) && x !in RemoveFirst(s, x)
  {
    if s != [] {
      assert s == [s[0]] + s[1..];
      RemoveFirstFacts(s[1..], x);
      if s[0] != x {
        var r := RemoveFirst(s, x);
        assert r == [s[0]] + RemoveFirst(s[1..], x);
        if NoDup(s) {
          assert NoDup(s[1..]);
          assert s[0] !in s[1..];
        }
      } else if NoDup(s) {
        assert x !in s[1..];
      }
    }
  }

  /** Removing the first occurrence of a value that is absent changes nothing,
      and removing it just after appending it undoes the append. */
  lemma {:induction false} RemoveFirstAppended<T>(s: seq<T>, x: T)
    requires x !in s
    ensures RemoveFirst(s + [x], x) == s
  {
    if s != [] {
      assert (s + [x])[1..] == s[1..] + [x];
      RemoveFirstAppended(s[1..], x);
    }
  }

  /** JavaScript's `a < b` on strings: lexicographic order on code units. */
  predicate Below(a: JsString, b: JsString): (r: bool)
    ensures r ==> a != b
  {
    if |a| == 0 then |b| > 0
    else if |b| == 0 then false
    else if a[0] != b[0] then a[0] < b[0]
    else Below(a[1..], b[1..])
  }

  /** `Below` is a strict total order: irreflexive, asymmetric and total on distinct strings. */
  lemma {:induction false} BelowTotal(a: JsString, b: JsString)
    ensures !(Below(a, b) && Below(b, a))
    ensures a != b ==> Below(a, b) || Below(b, a)
    ensures !Below(a, a)
  {
    if |a| > 0 {
      BelowTotal(a[1..], a[1..]);
      if |b| > 0 && a[0] == b[0] {
        BelowTotal(a[1..], b[1..]);
        assert a == [a[0]] + a[1..] && b == [b[0]] + b[1..];
      }
    }
  }

  /** The two endpoints of a member, sorted the way `[idOne, idTwo].sort()` sorts them. */
  datatype Pair = Pair(low: JsString, high: JsString)

  /** `[a, b].sort()`: JavaScript's default comparison of strings by code units.
      The result holds the same two ids, in order, whichever way round they were given. */
  function SortedPair(a: JsString, b: JsString): (r: Pair)
    ensures {r.low, r.high} == {a, b}
    ensures !Below(r.high, r.low)
  {
    BelowTotal(a, b);
    if Below(b, a) then Pair(b, a) else Pair(a, b)
  }

  /** A member's stored pair does not depend on the order its endpoints were given in. */
  lemma SortedPairSymmetric(a: JsString, b: JsString)
    ensures SortedPair(a, b) == SortedPair(b, a)
  {
    BelowTotal(a, b);
  }
}
