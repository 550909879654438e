/**
 A shift register described only by the laws its operations obey, and the two facts every CRC rests
 on: states that differ stay different under a common suffix, and two different windows no wider than
 the register leave different states.  `ReflectedCrc` supplies the sixteen-bit register.
 */
module ShiftRegister {
  import opened Folds

  datatype Register<!R(!new)> = Register(
    width: nat,
    zero: R,
    step: R -> R,            // one shift
    up: R -> R,              // one place towards the high end
    bit: bool -> R,          // a bit at the low end
    xor: (R, R) -> R,
    or: (R, R) -> R,
    fits: (nat, R) -> bool)  // no bit set at or above the given place
  {
    function Feeder(): (R, bool) -> R {
      (c, b) => step(xor(c, bit(b)))
    }

    /** A window of bits placed at the low end of the register, first bit lowest. */
    function Value(bits: seq<bool>): R {
      if bits == [] then zero else or(bit(bits[0]), up(Value(bits[1..])))
    }

    function Loader(): (R, seq<bool>) -> R {
      (c, bits) => xor(c, Value(bits))
    }

    ghost predicate XorLaws() {
      && (forall c :: xor(c, zero) == c)
      && (forall c, x, y :: xor(c, x) == xor(c, y) ==> x == y)
      && (forall c, x, y :: xor(x, c) == xor(y, c) ==> x == y)
    }

    ghost predicate FitLaws() {
      && fits(0, zero)
      && (forall n: nat, b, v :: n < width && fits(n, v) ==> fits(n + 1, or(bit(b), up(v))))
    }

    ghost predicate StepLaws() {
      && (forall x, y :: step(x) == step(y) ==> x == y)
      && (forall n: nat, c, v :: n < width && fits(n, v) ==> step(xor(c, up(v))) == xor(step(c), v))
    }

    ghost predicate SplitLaws() {
      && (forall c, b, v :: xor(c, or(bit(b), up(v))) == xor(xor(c, bit(b)), up(v)))
      && (forall n: nat, a, b, x, y ::
            (n < width && fits(n, x) && fits(n, y) && or(bit(a), up(x)) == or(bit(b), up(y)))
            ==> a == b && x == y)
    }

    ghost predicate Lawful() {
      XorLaws() && FitLaws() && StepLaws() && SplitLaws()
    }

    lemma FitsUp(n: nat, b: bool, v: R)
      requires Lawful() && n < width && fits(n, v)
      ensures fits(n + 1, or(bit(b), up(v)))
    {
    }

    lemma StepLoaded(n: nat, c: R, b: bool, v: R)
      requires Lawful() && n < width && fits(n, v)
      ensures step(xor(c, or(bit(b), up(v)))) == xor(step(xor(c, bit(b))), v)
    {
      assert step(xor(xor(c, bit(b)), up(v))) == xor(step(xor(c, bit(b))), v);
    }

    lemma SplitInjective(n: nat, a: bool, b: bool, x: R, y: R)
      requires Lawful() && n < width && fits(n, x) && fits(n, y)
      requires or(bit(a), up(x)) == or(bit(b), up(y))
      ensures a == b && x == y
    {
    }

    lemma {:induction false} ValueFits(bits: seq<bool>)
      requires Lawful() && |bits| <= width
      ensures fits(|bits|, Value(bits))
    {
      if bits != [] {
        var n: nat, v := |bits| - 1, Value(bits[1..]);
        ValueFits(bits[1..]);
        assert fits(n, v);
        FitsUp(n, bits[0], v);
      }
    }

    lemma {:induction false} ValueInjective(u: seq<bool>, v: seq<bool>)
      requires Lawful() && |u| == |v| <= width
      requires Value(u) == Value(v)
      ensures u == v
    {
      if u != [] {
        ValueFits(u[1..]);
        ValueFits(v[1..]);
        SplitInjective(|u| - 1, u[0], v[0], Value(u[1..]), Value(v[1..]));
        ValueInjective(u[1..], v[1..]);
        assert u == [u[0]] + u[1..] && v == [v[0]] + v[1..];
      }
    }

    lemma ValueOfEight(s: seq<bool>)
      requires |s| == 8
      ensures Value(s) == or(bit(s[0]), up(or(bit(s[1]), up(or(bit(s[2]), up(or(bit(s[3]),
                up(or(bit(s[4]), up(or(bit(s[5]), up(or(bit(s[6]), up(or(bit(s[7]), up(zero))))))))))))))))
    {
      ValueFrom(s, 0);
      ValueFrom(s, 1);
      ValueFrom(s, 2);
      ValueFrom(s, 3);
      ValueFrom(s, 4);
      ValueFrom(s, 5);
      ValueFrom(s, 6);
      ValueFrom(s, 7);
      assert s[0..] == s && s[8..] == [];
    }

    lemma ValueFrom(s: seq<bool>, i: nat)
      requires i < |s|
      ensures Value(s[i..]) == or(bit(s[i]), up(Value(s[i + 1..])))
    {
      assert s[i..][1..] == s[i + 1..];
    }

    lemma LoadsNothing(c: R, bits: seq<bool>)
      requires Lawful() && bits == []
      ensures Loader()(c, bits) == c
    {
      assert Value(bits) == zero;
    }

    lemma Loads()
      requires Lawful()
      ensures LoadsAhead(step, Feeder(), Loader(), width)
    {
      forall c ensures Loader()(c, []) == c {
        LoadsNothing(c, []);
      }
      forall c, bits: seq<bool> | 0 < |bits| <= width
        ensures step(Loader()(c, bits)) == Loader()(Feeder()(c, bits[0]), bits[1..])
      {
        ValueFits(bits[1..]);
        StepLoaded(|bits| - 1, c, bits[0], Value(bits[1..]));
        assert Loader()(c, bits) == xor(c, Value(bits));
        assert Value(bits) == or(bit(bits[0]), up(Value(bits[1..])));
        assert Feeder()(c, bits[0]) == step(xor(c, bit(bits[0])));
        assert Loader()(Feeder()(c, bits[0]), bits[1..]) == xor(step(xor(c, bit(bits[0]))), Value(bits[1..]));
      }
    }

    lemma FeedWindow(c: R, bits: seq<bool>)
      requires Lawful() && |bits| <= width
      ensures Fold(Feeder(), c, bits) == Iterate(step, |bits|, xor(c, Value(bits)))
    {
      Loads();
      FoldIsLoadThenIterate(step, Feeder(), Loader(), width, c, bits);
    }

    lemma FeedInjective(x: R, y: R, bits: seq<bool>)
      requires Lawful()
      requires Fold(Feeder(), x, bits) == Fold(Feeder(), y, bits)
      ensures x == y
    {
      FoldInjective(Feeder(), x, y, bits);
    }

    lemma WindowInjective(c: R, u: seq<bool>, v: seq<bool>)
      requires Lawful() && |u| == |v| <= width
      requires Fold(Feeder(), c, u) == Fold(Feeder(), c, v)
      ensures u == v
    {
      FeedWindow(c, u);
      FeedWindow(c, v);
      IterateInjective(step, |u|, xor(c, Value(u)), xor(c, Value(v)));
      ValueInjective(u, v);
    }

    lemma FeedThreeParts(c: R, u: seq<bool>, lo: nat, hi: nat)
      requires lo <= hi <= |u|
      ensures Fold(Feeder(), c, u) == Fold(Feeder(), Fold(Feeder(), Fold(Feeder(), c, u[..lo]), u[lo..hi]), u[hi..])
    {
      FoldThreeParts(Feeder(), c, u, lo, hi);
    }

    /** Bit strings that agree outside a window of `width` bits and leave one state are equal. */
    lemma BurstInjective(c: R, u: seq<bool>, v: seq<bool>, k: nat)
      requires Lawful() && Burst(u, v, k, width)
      requires Fold(Feeder(), c, u) == Fold(Feeder(), c, v)
      ensures u == v
    {
      var lo := if k <= |u| then k else |u|;
      var hi := if k + width <= |u| then k + width else |u|;
      assert u[..lo] == v[..lo] && u[hi..] == v[hi..];
      SlicesInjective(c, u, v, lo, hi);
      ThreePartsEqual(u, v, lo, hi);
    }

    lemma SlicesInjective(c: R, u: seq<bool>, v: seq<bool>, lo: nat, hi: nat)
      requires Lawful() && lo <= hi <= |u| == |v| && hi - lo <= width
      requires u[..lo] == v[..lo] && u[hi..] == v[hi..]
      requires Fold(Feeder(), c, u) == Fold(Feeder(), c, v)
      ensures u[lo..hi] == v[lo..hi]
    {
      FeedThreeParts(c, u, lo, hi);
      FeedThreeParts(c, v, lo, hi);
      var d := Fold(Feeder(), c, u[..lo]);
      FeedInjective(Fold(Feeder(), d, u[lo..hi]), Fold(Feeder(), d, v[lo..hi]), u[hi..]);
      WindowInjective(d, u[lo..hi], v[lo..hi]);
    }
  }

  lemma ThreePartsEqual(u: seq<bool>, v: seq<bool>, lo: nat, hi: nat)
    requires lo <= hi <= |u| == |v|
    requires u[..lo] == v[..lo] && u[lo..hi] == v[lo..hi] && u[hi..] == v[hi..]
    ensures u == v
  {
    forall i | 0 <= i < |u| ensures u[i] == v[i] {
      if i < lo {
        assert u[i] == u[..lo][i];
      } else if i < hi {
        assert u[i] == u[lo..hi][i - lo];
      } else {
        assert u[i] == u[hi..][i - hi];
      }
    }
  }

  /** u and v have one length and agree outside the `width` consecutive places starting at k. */
  ghost predicate Burst(u: seq<bool>, v: seq<bool>, k: nat, width: nat) {
    |u| == |v| && forall i :: 0 <= i < |u| && !(k <= i < k + width) ==> u[i] == v[i]
  }
}
