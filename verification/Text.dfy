/** The few string operations of Go's standard library that the modelled code relies on. */
module Text {
  import opened Wrappers

  /** White space as Unicode and Go's unicode.IsSpace define it. */
  predicate IsSpace(c: char) {
    || c == ' ' || '\t' <= c <= '\r' || c == '\U{85}' || c == '\U{A0}' || c == '\U{1680}'
    || '\U{2000}' <= c <= '\U{200A}' || c == '\U{2028}' || c == '\U{2029}' || c == '\U{202F}'
    || c == '\U{205F}' || c == '\U{3000}'
  }

  function TrimLeft(s: string): (r: string)
    ensures |r| <= |s| && (r != "" ==> !IsSpace(r[0]))
    ensures s == "" || !IsSpace(s[0]) ==> r == s
  {
    if s != "" && IsSpace(s[0]) then TrimLeft(s[1..]) else s
  }

  function TrimRight(s: string): (r: string)
    ensures |r| <= |s| && (r != "" ==> !IsSpace(r[|r| - 1]))
    ensures s == "" || !IsSpace(s[|s| - 1]) ==> r == s
  {
    if s != "" && IsSpace(s[|s| - 1]) then TrimRight(s[..|s| - 1]) else s
  }

  function TrimSpace(s: string): (r: string)
    ensures |r| <= |s|
    ensures s != "" && !IsSpace(s[0]) && !IsSpace(s[|s| - 1]) ==> r == s
  {
    TrimRight(TrimLeft(s))
  }

  /** Text that ends in something other than white space keeps what comes before trailing white space. */
  lemma {:induction false} TrimRightAfter(a: string, b: string)
    requires a != "" && !IsSpace(a[|a| - 1])
    ensures TrimRight(a + b) == a + TrimRight(b)
  {
    if b == "" {
      assert a + b == a;
    } else {
      assert (a + b)[|a + b| - 1] == b[|b| - 1];
      if IsSpace(b[|b| - 1]) {
        assert (a + b)[..|a + b| - 1] == a + b[..|b| - 1];
        TrimRightAfter(a, b[..|b| - 1]);
      }
    }
  }

  lemma {:induction false} TrimLeftBefore(s: string, c: char)
    requires IsSpace(c)
    ensures TrimLeft(s + [c]) == if TrimLeft(s) == "" then "" else TrimLeft(s) + [c]
  {
    if s == "" {
      assert "" + [c] == [c] && [c][1..] == "";
    } else {
      assert (s + [c])[0] == s[0];
      if IsSpace(s[0]) {
        assert (s + [c])[1..] == s[1..] + [c];
        TrimLeftBefore(s[1..], c);
      }
    }
  }

  /** Trimming the right end first changes nothing. */
  lemma {:induction false} TrimSpaceOfTrimRight(s: string)
    ensures TrimSpace(TrimRight(s)) == TrimSpace(s)
  {
    if s != "" && IsSpace(s[|s| - 1]) {
      var front, c := s[..|s| - 1], s[|s| - 1];
      TrimSpaceOfTrimRight(front);
      assert s == front + [c];
      TrimLeftBefore(front, c);
      var t := TrimLeft(front);
      assert t != "" ==> (t + [c])[..|t|] == t;
    }
  }

  /** What is cut off at the right is white space. */
  lemma {:induction false} TrimRightCuts(s: string)
    ensures TrimRight(s) <= s && forall i :: |TrimRight(s)| <= i < |s| ==> IsSpace(s[i])
  {
    if s != "" && IsSpace(s[|s| - 1]) {
      TrimRightCuts(s[..|s| - 1]);
    }
  }

  /** White space by code points. */
  lemma SpacesByCode(c: char)
    ensures IsSpace(c) <==>
      var n := c as int;
      9 <= n <= 13 || n in {32, 133, 160, 5760, 8232, 8233, 8239, 8287, 12288} || 8192 <= n <= 8202
  {
  }

  /** Trimming cuts off just the white space at both ends. */
  lemma TrimSpaceExactly(s: string) returns (i: nat, j: nat)
    ensures i <= j <= |s| && TrimSpace(s) == s[i..j]
    ensures forall k :: 0 <= k < |s| && !(i <= k < j) ==> IsSpace(s[k])
    ensures i < j ==> !IsSpace(s[i]) && !IsSpace(s[j - 1])
  {
    i := TrimLeftCuts(s);
    TrimRightCuts(s[i..]);
    j := i + |TrimRight(s[i..])|;
    forall k | j <= k < |s|
      ensures IsSpace(s[k])
    {
      assert s[k] == s[i..][k - i];
    }
    hide TrimLeft, TrimRight, IsSpace;
  }

  lemma {:induction false} TrimLeftCuts(s: string) returns (i: nat)
    ensures i <= |s| && TrimLeft(s) == s[i..] && forall k :: 0 <= k < i ==> IsSpace(s[k])
  {
    hide IsSpace;
    if s != "" && IsSpace(s[0]) {
      var n := TrimLeftCuts(s[1..]);
      i := n + 1;
      forall k | 0 <= k < i
        ensures IsSpace(s[k])
      {
        if k > 0 {
          assert s[k] == s[1..][k - 1];
        }
      }
    } else {
      i := 0;
    }
  }

  predicate Occurs(sub: string, s: string, at: nat) {
    at + |sub| <= |s| && s[at..at + |sub|] == sub
  }

  /** The first place where `sub` occurs. */
  function Index(s: string, sub: string): (r: Option<nat>)
    ensures r.Some? ==> r.value + |sub| <= |s|
  {
    IndexFrom(s, sub, 0)
  }

  function IndexFrom(s: string, sub: string, from: nat): (r: Option<nat>)
    ensures r.Some? ==> r.value + |sub| <= |s|
    decreases |s| - from
  {
    if Occurs(sub, s, from) then Some(from)
    else if from + |sub| >= |s| then None
    else IndexFrom(s, sub, from + 1)
  }

  lemma {:induction false} IndexFromIsFirst(s: string, sub: string, from: nat)
    ensures var r := IndexFrom(s, sub, from);
      && (r.Some? ==> from <= r.value && Occurs(sub, s, r.value))
      && (r.Some? ==> forall i: nat | from <= i < r.value :: !Occurs(sub, s, i))
      && (r.None? ==> forall i: nat | from <= i :: !Occurs(sub, s, i))
    decreases |s| - from
  {
    if !Occurs(sub, s, from) && from + |sub| < |s| {
      IndexFromIsFirst(s, sub, from + 1);
    }
  }

  lemma IndexIsFirst(s: string, sub: string)
    ensures var r := Index(s, sub);
      && (r.Some? ==> Occurs(sub, s, r.value) && forall i: nat | i < r.value :: !Occurs(sub, s, i))
      && (r.None? ==> forall i: nat :: !Occurs(sub, s, i))
  {
    IndexFromIsFirst(s, sub, 0);
  }
}
