/**
  Text operations the repository relies on: Java's String.replace (literal,
  left-to-right, non-overlapping), prefix and suffix tests, String.lastIndexOf
  on a character and Integer.toString.
 */
module Text {

  /** `t` occurs in `s` starting at index `i`. */
  ghost predicate OccursAt(s: string, t: string, i: int)
  {
    0 <= i && i + |t| <= |s| && s[i..i + |t|] == t
  }

  ghost predicate Contains(s: string, t: string)
  {
    exists i :: OccursAt(s, t, i)
  }

  predicate StartsWith(s: string, prefix: string)
  {
    |prefix| <= |s| && s[..|prefix|] == prefix
  }

  predicate EndsWith(s: string, suffix: string)
  {
    |suffix| <= |s| && s[|s| - |suffix|..] == suffix
  }

  /** The first index from `k` on where `t` occurs in `s`, or -1 when there is none. */
  function IndexFrom(s: string, t: string, k: nat): (i: int)
    requires t != []
    ensures -1 <= i
    ensures i == -1 ==> forall j :: k <= j ==> !OccursAt(s, t, j)
    ensures i >= 0 ==> k <= i && OccursAt(s, t, i) && forall j :: k <= j < i ==> !OccursAt(s, t, j)
    decreases |s| - k
  {
    if |s| < k + |t| then -1
    else if s[k..k + |t|] == t then k
    else IndexFrom(s, t, k + 1)
  }

  /** s.indexOf(t): the first index where `t` occurs in `s`, or -1 when it does not occur. */
  function IndexOf(s: string, t: string): (i: int)
    requires t != []
    ensures -1 <= i
    ensures i == -1 ==> !Contains(s, t)
    ensures i >= 0 ==> OccursAt(s, t, i) && forall j :: 0 <= j < i ==> !OccursAt(s, t, j)
  {
    IndexFrom(s, t, 0)
  }

  /**
    s.replace(t, r): find the first occurrence of `t`, emit the text before it
    and `r`, and go on after that occurrence.
   */
  function ReplaceAll(s: string, t: string, r: string): (x: string)
    requires t != []
    ensures !Contains(s, t) ==> x == s
    decreases |s|
  {
    var i := IndexOf(s, t);
    if i < 0 then s else s[..i] + r + ReplaceAll(s[i + |t|..], t, r)
  }

  /**
    The pieces of `s` between the occurrences of `t` that ReplaceAll finds.
    An independent description of ReplaceAll: see SplitJoin, SplitPiecesFree
    and ReplaceIsJoin.
   */
  function Split(s: string, t: string): (parts: seq<string>)
    requires t != []
    ensures |parts| >= 1
    decreases |s|
  {
    var i := IndexOf(s, t);
    if i < 0 then [s] else [s[..i]] + Split(s[i + |t|..], t)
  }

  /** One step of ReplaceAll at a found occurrence. */
  lemma ReplaceStep(s: string, t: string, r: string)
    requires t != [] && IndexOf(s, t) >= 0
    ensures ReplaceAll(s, t, r) == s[..IndexOf(s, t)] + r + ReplaceAll(s[IndexOf(s, t) + |t|..], t, r)
  {
  }

  /** One step of Split at a found occurrence. */
  lemma SplitStep(s: string, t: string)
    requires t != [] && IndexOf(s, t) >= 0
    ensures Split(s, t) == [s[..IndexOf(s, t)]] + Split(s[IndexOf(s, t) + |t|..], t)
  {
  }

  function Join(parts: seq<string>, sep: string): string
    requires |parts| >= 1
  {
    if |parts| == 1 then parts[0] else parts[0] + sep + Join(parts[1..], sep)
  }

  lemma JoinCons(p: string, rest: seq<string>, sep: string)
    requires |rest| >= 1
    ensures Join([p] + rest, sep) == p + sep + Join(rest, sep)
  {
    assert ([p] + rest)[1..] == rest;
  }

  /** Splitting at `t` and joining the pieces with `t` gives back the text. */
  lemma {:induction false} SplitJoin(s: string, t: string)
    requires t != []
    ensures Join(Split(s, t), t) == s
    decreases |s|
  {
    var i := IndexOf(s, t);
    if i >= 0 {
      SplitJoin(s[i + |t|..], t);
      JoinCons(s[..i], Split(s[i + |t|..], t), t);
      assert s == s[..i] + s[i..i + |t|] + s[i + |t|..];
    }
  }

  /** Replacing every found occurrence is joining the pieces with the replacement. */
  lemma {:induction false} ReplaceIsJoin(s: string, t: string, r: string)
    requires t != []
    ensures ReplaceAll(s, t, r) == Join(Split(s, t), r)
    decreases |s|, 1
  {
    if IndexOf(s, t) >= 0 {
      ReplaceIsJoinStep(s, t, r);
    } else {
      ReplaceIsJoinBase(s, t, r);
    }
  }

  /** ReplaceIsJoin where the target does not occur. */
  lemma ReplaceIsJoinBase(s: string, t: string, r: string)
    requires t != [] && IndexOf(s, t) < 0
    ensures ReplaceAll(s, t, r) == Join(Split(s, t), r)
  {
    assert Split(s, t) == [s];
  }

  /** ReplaceIsJoin at a found occurrence, from ReplaceIsJoin on the rest of the text. */
  lemma {:induction false} ReplaceIsJoinStep(s: string, t: string, r: string)
    requires t != [] && IndexOf(s, t) >= 0
    ensures ReplaceAll(s, t, r) == Join(Split(s, t), r)
    decreases |s|, 0
  {
    var i := IndexOf(s, t);
    var rest := s[i + |t|..];
    ReplaceIsJoin(rest, t, r);
    ReplaceStep(s, t, r);
    SplitStep(s, t);
    JoinCons(s[..i], Split(rest, t), r);
  }

  lemma OccursInConcat(a: string, b: string, t: string, k: int)
    requires OccursAt(b, t, k)
    ensures OccursAt(a + b, t, |a| + k)
  {
    assert (a + b)[|a| + k..|a| + k + |t|] == b[k..k + |t|];
  }

  lemma OccursInPrefix(a: string, b: string, t: string, k: int)
    requires OccursAt(a, t, k)
    ensures OccursAt(a + b, t, k)
  {
    assert (a + b)[k..k + |t|] == a[k..k + |t|];
  }

  /** No piece of a split contains the separator: every occurrence was cut. */
  lemma {:induction false} SplitPiecesFree(s: string, t: string)
    requires t != []
    ensures forall k :: 0 <= k < |Split(s, t)| ==> !Contains(Split(s, t)[k], t)
    decreases |s|
  {
    var i := IndexOf(s, t);
    if i >= 0 {
      var rest := s[i + |t|..];
      var parts := Split(s, t);
      assert parts == [s[..i]] + Split(rest, t);
      SplitPiecesFree(rest, t);
      forall k | 0 <= k < |parts| ensures !Contains(parts[k], t) {
        if k == 0 {
          forall j | 0 <= j && j + |t| <= i
            ensures !OccursAt(s[..i], t, j)
          {
            assert !OccursAt(s, t, j);
            assert s[..i][j..j + |t|] == s[j..j + |t|];
          }
        } else {
          assert parts[k] == Split(rest, t)[k - 1];
        }
      }
    }
  }

  /**
    A guarded token opens with `open` and closes with a different `close`,
    and neither of the two occurs in between.
   */
  ghost predicate Guarded(t: string, open: char, close: char)
  {
    && |t| >= 2 && open != close && t[0] == open && t[|t| - 1] == close
    && open !in t[1..|t| - 1] && close !in t[1..|t| - 1]
  }

  /** A text framed by `open` and `close`. */
  ghost predicate Framed(r: string, open: char, close: char)
  {
    |r| >= 1 && r[0] == open && r[|r| - 1] == close
  }

  /**
    A guarded token cannot straddle a framed text: it occurs in `a + r + b`
    only where it occurs in one of the three.
   */
  lemma ConcatFree(a: string, r: string, b: string, t: string, open: char, close: char)
    requires Guarded(t, open, close) && Framed(r, open, close)
    requires !Contains(a, t) && !Contains(r, t) && !Contains(b, t)
    ensures !Contains(a + r + b, t)
  {
    var s := a + r + b;
    var inner := t[1..|t| - 1];
    forall i | 0 <= i && i + |t| <= |s| ensures !OccursAt(s, t, i) {
      if i + |t| <= |a| {
        assert s[i..i + |t|] == a[i..i + |t|];
        assert !OccursAt(a, t, i);
      } else if i < |a| {
        var k := |a| - i;
        assert s[i..i + |t|][k] == r[0] == open;
        if k < |t| - 1 {
          assert t[k] == inner[k - 1];
        }
      } else if i + |t| <= |a| + |r| {
        assert s[i..i + |t|] == r[i - |a|..i - |a| + |t|];
        assert !OccursAt(r, t, i - |a|);
      } else if i < |a| + |r| {
        var k := |a| + |r| - 1 - i;
        assert s[i..i + |t|][k] == r[|r| - 1] == close;
        if k > 0 {
          assert t[k] == inner[k - 1];
        }
      } else {
        assert s[i..i + |t|] == b[i - |a| - |r|..i - |a| - |r| + |t|];
        assert !OccursAt(b, t, i - |a| - |r|);
      }
    }
  }

  /** Joining pieces free of a guarded token with a framed separator free of it yields a text free of it. */
  lemma {:induction false} JoinFree(parts: seq<string>, r: string, t: string, open: char, close: char)
    requires |parts| >= 1 && Guarded(t, open, close) && Framed(r, open, close) && !Contains(r, t)
    requires forall k :: 0 <= k < |parts| ==> !Contains(parts[k], t)
    ensures !Contains(Join(parts, r), t)
    decreases |parts|
  {
    if |parts| > 1 {
      assert forall k :: 0 <= k < |parts[1..]| ==> parts[1..][k] == parts[k + 1];
      JoinFree(parts[1..], r, t, open, close);
      ConcatFree(parts[0], r, Join(parts[1..], r), t, open, close);
    }
  }

  /** A shorter replacement never lengthens the text, one of equal length keeps its length. */
  lemma {:induction false} ReplaceLength(s: string, t: string, r: string)
    requires t != []
    ensures |r| <= |t| ==> |ReplaceAll(s, t, r)| <= |s|
    ensures |r| == |t| ==> |ReplaceAll(s, t, r)| == |s|
    ensures |r| >= |t| ==> |ReplaceAll(s, t, r)| >= |s|
    decreases |s|, 1
  {
    if IndexOf(s, t) >= 0 {
      ReplaceLengthStep(s, t, r);
    }
  }

  /** ReplaceLength at a found occurrence, from ReplaceLength on the rest of the text. */
  lemma {:induction false} ReplaceLengthStep(s: string, t: string, r: string)
    requires t != [] && IndexOf(s, t) >= 0
    ensures |r| <= |t| ==> |ReplaceAll(s, t, r)| <= |s|
    ensures |r| == |t| ==> |ReplaceAll(s, t, r)| == |s|
    ensures |r| >= |t| ==> |ReplaceAll(s, t, r)| >= |s|
    decreases |s|, 0
  {
    var i := IndexOf(s, t);
    var rest := s[i + |t|..];
    ReplaceLength(rest, t, r);
    ReplaceStep(s, t, r);
    assert |s| == i + |t| + |rest|;
  }

  /** A found target replaced by something else changes the text. */
  lemma ReplaceChanges(s: string, t: string, r: string)
    requires t != [] && Contains(s, t) && r != t
    ensures ReplaceAll(s, t, r) != s
  {
    var i := IndexOf(s, t);
    var rest := s[i + |t|..];
    var head := s[..i] + r;
    var tail := ReplaceAll(rest, t, r);
    var out := ReplaceAll(s, t, r);
    assert out == head + tail;
    if |r| == |t| {
      assert head[i..] == r;
      assert out[i..i + |r|] == r;
      assert s[i..i + |t|] == t;
    } else {
      ReplaceLength(rest, t, r);
      assert |s| == i + |t| + |rest|;
      assert |out| == i + |r| + |tail|;
    }
  }

  /**
    A replacement changes nothing exactly when its target is absent or is
    replaced by itself.
   */
  lemma ReplaceUnchangedIff(s: string, t: string, r: string)
    requires t != []
    ensures ReplaceAll(s, t, r) == s <==> (!Contains(s, t) || r == t)
  {
    if r == t {
      SplitJoin(s, t);
      ReplaceIsJoin(s, t, r);
    } else if Contains(s, t) {
      ReplaceChanges(s, t, r);
    }
  }

  /** A text that holds `r` somewhere in its middle contains whatever `r` contains. */
  lemma ContainsMiddle(a: string, r: string, b: string, t: string)
    requires Contains(r, t)
    ensures Contains(a + r + b, t)
  {
    var j :| OccursAt(r, t, j);
    OccursInConcat(a, r, t, j);
    OccursInPrefix(a + r, b, t, |a| + j);
  }

  /** Re-running a replacement changes the text again when the replacement carries the target. */
  lemma ReplaceTwiceChanges(s: string, t: string, r: string)
    requires t != [] && Contains(s, t) && Contains(r, t) && r != t
    ensures ReplaceAll(ReplaceAll(s, t, r), t, r) != ReplaceAll(s, t, r)
  {
    var i := IndexOf(s, t);
    var out := ReplaceAll(s, t, r);
    ReplaceStep(s, t, r);
    ContainsMiddle(s[..i], r, ReplaceAll(s[i + |t|..], t, r), t);
    ReplaceUnchangedIff(out, t, r);
  }

  /**
    s.lastIndexOf(c): the index of the last `c` in `s`, or -1 when there is none.
   */
  function LastIndexOf(s: string, c: char): (r: int)
    ensures -1 <= r < |s|
    ensures r == -1 ==> c !in s
    ensures r >= 0 ==> s[r] == c && c !in s[r + 1..]
  {
    if s == [] then -1
    else if s[|s| - 1] == c then |s| - 1
    else
      var r := LastIndexOf(s[..|s| - 1], c);
      assert s[r + 1..] == s[..|s| - 1][r + 1..] + [s[|s| - 1]];
      r
  }

  function DigitChar(d: nat): char
    requires d < 10
  {
    (48 + d) as char
  }

  predicate IsDigit(c: char)
  {
    '0' <= c <= '9'
  }

  /** The number a string of decimal digits denotes, most significant digit first. */
  function DecimalValue(s: string): int
  {
    if s == [] then 0 else 10 * DecimalValue(s[..|s| - 1]) + (s[|s| - 1] as int - '0' as int)
  }

  /** A decimal text without leading zeros: non-empty, all digits, and no '0' in front of another digit. */
  ghost predicate Canonical(s: string)
  {
    |s| >= 1 && (forall i :: 0 <= i < |s| ==> IsDigit(s[i])) && (|s| >= 2 ==> s[0] != '0')
  }

  /** A digit text does not denote a negative number. */
  lemma {:induction false} DecimalNonNegative(s: string)
    requires forall i :: 0 <= i < |s| ==> IsDigit(s[i])
    ensures DecimalValue(s) >= 0
  {
    if s != [] {
      DecimalNonNegative(s[..|s| - 1]);
    }
  }

  /** A digit text that does not start with '0' denotes at least one. */
  lemma {:induction false} DecimalPositive(s: string)
    requires |s| >= 1 && (forall i :: 0 <= i < |s| ==> IsDigit(s[i])) && s[0] != '0'
    ensures DecimalValue(s) >= 1
  {
    if |s| >= 2 {
      DecimalPositive(s[..|s| - 1]);
    } else {
      assert DecimalValue(s[..0]) == 0;
    }
  }

  /** Two canonical decimal texts that denote the same number are the same text. */
  lemma {:induction false} CanonicalUnique(a: string, b: string)
    requires Canonical(a) && Canonical(b) && DecimalValue(a) == DecimalValue(b)
    ensures a == b
    decreases |a|
  {
    var ia, ib := a[..|a| - 1], b[..|b| - 1];
    var da, db := a[|a| - 1] as int - '0' as int, b[|b| - 1] as int - '0' as int;
    assert 0 <= da <= 9 && 0 <= db <= 9;
    DecimalNonNegative(ia);
    DecimalNonNegative(ib);
    if |a| >= 2 {
      assert ia[0] == a[0];
      DecimalPositive(ia);
    }
    if |b| >= 2 {
      assert ib[0] == b[0];
      DecimalPositive(ib);
    }
    assert |a| >= 2 <==> |b| >= 2;
    assert da == db && DecimalValue(ia) == DecimalValue(ib);
    if |a| >= 2 {
      assert Canonical(ia) && Canonical(ib);
      CanonicalUnique(ia, ib);
      assert a == ia + [a[|a| - 1]] && b == ib + [b[|b| - 1]];
    }
  }

  /** NatToString is the only canonical decimal spelling of `n`. */
  lemma NatToStringUnique(n: nat, s: string)
    requires Canonical(s) && DecimalValue(s) == n
    ensures s == NatToString(n)
  {
    CanonicalUnique(s, NatToString(n));
  }

  /** The decimal digits of `n`, most significant first, without leading zeros. */
  function NatToString(n: nat): (s: string)
    ensures |s| >= 1
    ensures forall i :: 0 <= i < |s| ==> IsDigit(s[i])
    ensures DecimalValue(s) == n
    ensures s[0] == '0' ==> n == 0
    ensures Canonical(s)
  {
    if n < 10 then [DigitChar(n)]
    else
      var init := NatToString(n / 10);
      var s := init + [DigitChar(n % 10)];
      assert s[..|s| - 1] == init;
      assert s[0] == init[0];
      s
  }

  /**
    Integer.toString: a non-empty text that starts with '-' exactly for
    negative numbers, and whose digits denote the magnitude.
   */
  function IntToString(i: int): (s: string)
    ensures |s| >= 1
    ensures s[0] == '-' <==> i < 0
    ensures i >= 0 ==> DecimalValue(s) == i
    ensures i < 0 ==> DecimalValue(s[1..]) == -i
    ensures i >= 0 ==> Canonical(s)
    ensures i > 0 ==> s[0] != '0'
    ensures i < 0 ==> |s| >= 2 && s[1] != '0' && Canonical(s[1..])
  {
    if i < 0 then
      var s := "-" + NatToString(-i);
      assert s[1..] == NatToString(-i);
      s
    else
      assert IsDigit(NatToString(i)[0]);
      NatToString(i)
  }

  /** Integer.toString is injective. */
  lemma IntToStringInjective(a: int, b: int)
    requires IntToString(a) == IntToString(b)
    ensures a == b
  {
  }

  /** Integer.toString has no '-' after its first character. */
  lemma IntToStringDash(i: int, k: int)
    requires 1 <= k < |IntToString(i)|
    ensures IntToString(i)[k] != '-'
  {
    if i < 0 {
      assert IntToString(i)[k] == NatToString(-i)[k - 1];
    } else {
      assert IntToString(i)[k] == NatToString(i)[k];
    }
  }

  /** Integer.toString(201), the prefix of the 201 template family. */
  lemma IntToString201()
    ensures IntToString(201) == "201"
  {
    assert NatToString(2) == "2";
    assert NatToString(20) == "20";
  }
}
