// The rules the Ackermann build command registers before it builds
// ack(M, N): one rule per key (i, j) with i <= M and j up to a per-row
// upper bound, and the proof that these are all the keys the build needs.

module AckRules {
  import opened Ackermann
  import opened AckKeys
  import opened AckTask
  import opened AckMemo

  /** Largest N for which, whatever M, every upper bound and the rule count
      fit a 32-bit int; for M <= 1 a few larger N fit too (Int32Boundary). */
  const MaxN: nat := 26

  /** The last j registered in row i: 2^(N+3) - 2 for rows 0 and 1,
      2^(N+2) - 2 for row 2, and N + 1 for row 3, which is only reached
      when it is row M. */
  function UpperBound(M: nat, N: nat, i: nat): (b: int)
    requires i <= M < 4
    ensures b >= N + 1
  {
    Pow2AboveExponent(N + 2);
    if i == 0 || i == 1 then Pow2(N + 3) - 3 + 1
    else if i == 2 then Pow2(N + 3 - 1) - 3 + 1
    else assert i == M; N + 1
  }

  /** k is one of the keys the command registers a rule for. */
  predicate Registered(M: nat, N: nat, k: Key)
    requires M < 4
  {
    0 <= k.m <= M && 0 <= k.n <= UpperBound(M, N, k.m)
  }

  /** The number of rules in rows 0 .. rows - 1. */
  function RuleCount(M: nat, N: nat, rows: nat): (count: int)
    requires rows <= M + 1 && M < 4
  {
    if rows == 0 then 0 else RuleCount(M, N, rows - 1) + UpperBound(M, N, rows - 1) + 1
  }

  /** The rule count in closed form for each M. */
  lemma RuleCountClosedForm(M: nat, N: nat)
    requires M < 4
    ensures M == 0 ==> RuleCount(M, N, M + 1) == Pow2(N + 3) - 1
    ensures M == 1 ==> RuleCount(M, N, M + 1) == Pow2(N + 4) - 2
    ensures M == 2 ==> RuleCount(M, N, M + 1) == Pow2(N + 4) + Pow2(N + 2) - 3
    ensures M == 3 ==> RuleCount(M, N, M + 1) == Pow2(N + 4) + Pow2(N + 2) + N - 1
  {
    assert Pow2(N + 4) == 2 * Pow2(N + 3);
    assert Pow2(N + 3) == 2 * Pow2(N + 2);
    assert RuleCount(M, N, 0) == 0;
    var b0, count := UpperBound(M, N, 0), RuleCount(M, N, 1);
    assert count == b0 + 1;
    if M >= 1 {
      var b1 := UpperBound(M, N, 1);
      count := RuleCount(M, N, 2);
      assert count == b0 + b1 + 2;
      if M >= 2 {
        var b2 := UpperBound(M, N, 2);
        count := RuleCount(M, N, 3);
        assert count == b0 + b1 + b2 + 3;
        if M == 3 {
          var b3 := UpperBound(M, N, 3);
          assert RuleCount(M, N, 4) == count + b3 + 1;
        }
      }
    }
  }

  /** The command's arithmetic stays within a 32-bit int: the cast
      int(pow(2, N+3) - 3) + 1 of rows 0 and 1, the largest bound, and the
      final value of NumRules. The command's own guard, N < 1024, does not
      ensure this. */
  predicate FitsInt32(M: nat, N: nat)
    requires M < 4
  {
    Pow2(N + 3) - 2 <= IntMax && RuleCount(M, N, M + 1) <= IntMax
  }

  /** With N <= MaxN the command's arithmetic fits a 32-bit int for every M. */
  lemma RuleCountFitsInt(M: nat, N: nat)
    requires M < 4 && N <= MaxN
    ensures FitsInt32(M, N)
  {
    RuleCountClosedForm(M, N);
    Pow2Monotone(N + 4, 30);
    Pow2Monotone(N + 3, 30);
    Pow2Monotone(N + 2, 28);
    Pow2Thirty();
  }

  /** Exactly which N keep the arithmetic within 32 bits, row by row: for
      M = 0 every N <= 28 (the cast overflows from N = 29 on), for M = 1
      every N <= 27 (the counter overflows from N = 28 on), for M = 2 and 3
      every N <= 26 (the counter overflows from N = 27 on). */
  lemma Int32Boundary(N: nat)
    ensures FitsInt32(0, N) <==> N <= 28
    ensures FitsInt32(1, N) <==> N <= 27
    ensures FitsInt32(2, N) <==> N <= 26
    ensures FitsInt32(3, N) <==> N <= 26
  {
    if N <= 26 {
      RuleCountFitsInt(0, N);
      RuleCountFitsInt(1, N);
      RuleCountFitsInt(2, N);
      RuleCountFitsInt(3, N);
    } else if N <= 28 {
      Pow2Thirty();
      assert Pow2(29) == 2 * Pow2(28);
      assert Pow2(31) == 2 * Pow2(30);
      assert Pow2(32) == 2 * Pow2(31);
      RuleCountClosedForm(0, N);
      RuleCountClosedForm(1, N);
      RuleCountClosedForm(2, N);
      RuleCountClosedForm(3, N);
    } else {
      // From N = 29 on, the cast alone leaves 32 bits, whatever M.
      Pow2Thirty();
      assert Pow2(32) == 4 * Pow2(30);
      Pow2Monotone(32, N + 3);
    }
  }

  /** Registers the rules row by row, as the command does, and counts them.
      The rules are exactly the registered keys, each once, under pairwise
      distinct names. */
  method EnumerateRules(M: int, N: int) returns (rules: seq<Key>, numRules: int)
    requires 0 <= M < 4 && 0 <= N && FitsInt32(M, N)
    ensures numRules == |rules| == RuleCount(M, N, M + 1)
    ensures numRules <= IntMax
    ensures forall k :: k in rules <==> Registered(M, N, k)
    ensures forall a, b :: 0 <= a < b < |rules| ==> KeyName(rules[a]) != KeyName(rules[b])
  {
    rules, numRules := [], 0;
    var i := 0;
    while i <= M
      invariant 0 <= i <= M + 1
      invariant numRules == |rules| == RuleCount(M, N, i)
      invariant forall k :: k in rules <==> 0 <= k.m < i && 0 <= k.n <= UpperBound(M, N, k.m)
      invariant forall a, b :: 0 <= a < b < |rules| ==> rules[a] != rules[b]
    {
      var upperBound := UpperBound(M, N, i);
      var j := 0;
      while j <= upperBound
        invariant 0 <= j <= upperBound + 1
        invariant numRules == |rules| == RuleCount(M, N, i) + j
        invariant forall k :: k in rules <==>
          (0 <= k.m < i && 0 <= k.n <= UpperBound(M, N, k.m)) || (k.m == i && 0 <= k.n < j)
        invariant forall a, b :: 0 <= a < b < |rules| ==> rules[a] != rules[b]
      {
        rules := rules + [Key(i, j)];
        numRules := numRules + 1;
        j := j + 1;
      }
      i := i + 1;
    }
    forall a, b | 0 <= a < b < |rules|
      ensures KeyName(rules[a]) != KeyName(rules[b])
    {
      KeyNameInjective(rules[a], rules[b]);
    }
  }

  /** The task for k asks for d (when its inputs are answered correctly). */
  ghost predicate Requests(k: Key, d: Key) {
    k.m >= 0 && k.n >= 0 && exists r :: r in ExpectedRequests(k) && r.key == d
  }

  /** The largest second argument reached in row i by the build of
      ack(M, N): N in row M, and below it the largest key the row above
      asks for. */
  function Limit(M: nat, N: nat, i: nat): (l: nat)
    requires i <= M
    decreases M - i
  {
    if i == M then N
    else
      var above := Limit(M, N, i + 1);
      if above == 0 then 1 else Ack(i + 1, above - 1)
  }

  /** The keys the build of ack(M, N) can reach. */
  ghost predicate InRegion(M: nat, N: nat, k: Key) {
    0 <= k.m <= M && 0 <= k.n <= Limit(M, N, k.m)
  }

  /** Whatever a key of the region asks for lies in the region. */
  lemma RegionClosed(M: nat, N: nat, k: Key, d: Key)
    requires InRegion(M, N, k) && Requests(k, d)
    ensures InRegion(M, N, d)
  {
    var r :| r in ExpectedRequests(k) && r.key == d;
    if k.m != 0 && k.n != 0 && d.m == k.m - 1 {
      var above := Limit(M, N, k.m);
      assert Limit(M, N, k.m - 1) == Ack(k.m, above - 1);
      AckMonotone(k.m, k.n - 1, above - 1);
    }
  }

  /** Each row of the region stays within the row's registered bound. */
  lemma LimitWithinUpperBound(M: nat, N: nat, i: nat)
    requires i <= M < 4
    ensures Limit(M, N, i) <= UpperBound(M, N, i)
  {
    Pow2AboveExponent(N + 2);
    assert Pow2(N + 3) == 2 * Pow2(N + 2);
    if i < M {
      if M == 1 {
        if N > 0 { AckRow1(N - 1); }
      } else if M == 2 {
        LimitsOfTwo(N);
      } else {
        LimitsOfThree(N);
      }
    }
  }

  /** The rows below row 2 in the build of ack(2, N). */
  lemma LimitsOfTwo(N: nat)
    ensures Limit(2, N, 1) == 2 * N + 1
    ensures Limit(2, N, 0) == 2 * N + 2
  {
    if N > 0 {
      AckRow2(N - 1);
    }
    AckRow1(2 * N);
  }

  /** Row 2 in the build of ack(3, N): the key ack(3, N-1) asks for. */
  lemma LimitOfThreeInRowTwo(N: nat)
    ensures Limit(3, N, 2) == if N == 0 then 1 else Pow2(N + 2) - 3
  {
    if N > 0 {
      AckRow3(N - 1);
    }
  }

  /** The rows below row 3 in the build of ack(3, N). */
  lemma LimitsOfThree(N: nat)
    ensures Limit(3, N, 2) <= Pow2(N + 2) - 2
    ensures Limit(3, N, 1) == 2 * Limit(3, N, 2) + 1
    ensures Limit(3, N, 0) == 2 * Limit(3, N, 2) + 2
  {
    var l2 := Limit(3, N, 2);
    LimitOfThreeInRowTwo(N);
    Pow2AboveExponent(N + 2);
    assert 1 <= l2 <= Pow2(N + 2) - 2;
    var l1 := Limit(3, N, 1);
    assert l1 == Ack(2, l2 - 1);
    AckRow2(l2 - 1);
    var l0 := Limit(3, N, 0);
    assert l0 == Ack(1, l1 - 1);
    AckRow1(l1 - 1);
  }

  /** The coverage claim of the command: every key requested, directly or
      transitively, by the build of ack(M, N) has a registered rule. */
  lemma {:induction false} RequestedKeysRegistered(M: nat, N: nat, path: seq<Key>)
    requires M < 4
    requires |path| >= 1 && path[0] == Key(M, N)
    requires forall i :: 0 <= i < |path| - 1 ==> Requests(path[i], path[i + 1])
    ensures forall i :: 0 <= i < |path| ==> Registered(M, N, path[i])
  {
    PathInRegion(M, N, path);
    forall i | 0 <= i < |path|
      ensures Registered(M, N, path[i])
    {
      LimitWithinUpperBound(M, N, path[i].m);
    }
  }

  lemma {:induction false} PathInRegion(M: nat, N: nat, path: seq<Key>)
    requires |path| >= 1 && path[0] == Key(M, N)
    requires forall i :: 0 <= i < |path| - 1 ==> Requests(path[i], path[i + 1])
    ensures forall i :: 0 <= i < |path| ==> InRegion(M, N, path[i])
    decreases |path|
  {
    if |path| > 1 {
      var prefix := path[..|path| - 1];
      PathInRegion(M, N, prefix);
      RegionClosed(M, N, path[|path| - 2], path[|path| - 1]);
    }
  }

  /** The build command for ack(M, N): registers the rules, builds the key
      (the synchronous driver Build stands in for the engine's build) and,
      for N < 10, checks the result against the memoized reference value. */
  method RunAckermannBuild(M: int, N: int) returns (result: int, numRules: int)
    requires 0 <= M < 4 && 0 <= N && FitsInt32(M, N)
    ensures result == Ack(M, N)
    ensures numRules == RuleCount(M, N, M + 1)
  {
    var rules;
    rules, numRules := EnumerateRules(M, N);
    var key := Key(M, N);
    assert key in rules;
    var requested;
    result, requested := Build(key);
    forall r | r in requested
      ensures r.key in rules
    {
      var path := [key, r.key];
      assert Requests(path[0], path[1]);
      RequestedKeysRegistered(M, N, path);
      assert Registered(M, N, path[1]);
    }
    if N < 10 {
      var expected := AckMemoized(M, N);
      assert result == expected;
    }
  }
}
