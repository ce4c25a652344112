/** Registers that are fed one bit at a time. */
module BitMachines {

  type Machine<!S> = (S, bool) -> S

  function Run<S>(f: Machine<S>, s: S, bits: seq<bool>): S
    decreases |bits|
  {
    if |bits| == 0 then s else Run(f, f(s, bits[0]), bits[1..])
  }

  lemma {:induction false} RunSplits<S>(f: Machine<S>, s: S, a: seq<bool>, b: seq<bool>)
    ensures Run(f, s, a + b) == Run(f, Run(f, s, a), b)
    decreases |a|
  {
    if |a| == 0 {
      assert a + b == b;
    } else {
      assert (a + b)[1..] == a[1..] + b;
      RunSplits(f, f(s, a[0]), a[1..], b);
    }
  }

  lemma RunOneMore<S>(f: Machine<S>, s: S, bits: seq<bool>, n: nat)
    requires n < |bits|
    ensures Run(f, s, bits[..n + 1]) == f(Run(f, s, bits[..n]), bits[n])
  {
    RunSplits(f, s, bits[..n], [bits[n]]);
    assert bits[..n + 1] == bits[..n] + [bits[n]];
  }

  lemma RunAround<S>(f: Machine<S>, s: S, a: seq<bool>, k: nat, n: nat)
    requires k + n <= |a|
    ensures Run(f, s, a) == Run(f, Run(f, Run(f, s, a[..k]), a[k..k + n]), a[k + n..])
  {
    assert a == a[..k] + a[k..] && a[k..] == a[k..k + n] + a[k + n..];
    RunSplits(f, s, a[..k], a[k..]);
    RunSplits(f, Run(f, s, a[..k]), a[k..k + n], a[k + n..]);
  }

  // The same bit never takes two registers to one.
  ghost predicate Reversible<S(!new)>(f: Machine<S>) {
    forall x, y, b :: f(x, b) == f(y, b) ==> x == y
  }

  lemma {:induction false} RunIsInjective<S(!new)>(f: Machine<S>, x: S, y: S, bits: seq<bool>)
    requires Reversible(f)
    ensures Run(f, x, bits) == Run(f, y, bits) <==> x == y
    decreases |bits|
  {
    if |bits| > 0 {
      var b := bits[0];
      RunIsInjective(f, f(x, b), f(y, b), bits[1..]);
      assert f(x, b) == f(y, b) ==> x == y;
    }
  }

  // Whatever n more bits each of two registers is fed, they stay different.
  ghost predicate Separate<S>(f: Machine<S>, x: S, y: S, n: nat)
    decreases n
  {
    if n == 0 then x != y
    else
      && Separate(f, f(x, false), f(y, false), n - 1)
      && Separate(f, f(x, false), f(y, true), n - 1)
      && Separate(f, f(x, true), f(y, false), n - 1)
      && Separate(f, f(x, true), f(y, true), n - 1)
  }

  lemma {:induction false} StillApart<S>(f: Machine<S>, x: S, y: S, a: seq<bool>, b: seq<bool>)
    requires |a| == |b| && Separate(f, x, y, |a|)
    ensures Run(f, x, a) != Run(f, y, b)
    decreases |a|
  {
    if |a| > 0 {
      var p, q := a[0], b[0];
      assert Separate(f, f(x, p), f(y, q), |a| - 1) by {
        if p {
          assert q || !q;
        }
      }
      StillApart(f, f(x, p), f(y, q), a[1..], b[1..]);
    }
  }

  // Two different bits send any register to two that stay different for w - 1 more bits.
  ghost predicate Branching<S(!new)>(f: Machine<S>, w: nat) {
    forall x, n: nat {:trigger Separate(f, f(x, false), f(x, true), n)} :: n < w ==>
      Separate(f, f(x, false), f(x, true), n) && Separate(f, f(x, true), f(x, false), n)
  }

  // From one register, up to w bits lead to different registers.
  lemma {:induction false} WindowIsInjective<S(!new)>(f: Machine<S>, w: nat, x: S, a: seq<bool>, b: seq<bool>)
    requires |a| == |b| <= w && Branching(f, w)
    ensures Run(f, x, a) == Run(f, x, b) <==> a == b
    decreases |a|
  {
    if |a| > 0 {
      assert a == [a[0]] + a[1..] && b == [b[0]] + b[1..];
      if a[0] == b[0] {
        WindowIsInjective(f, w, f(x, a[0]), a[1..], b[1..]);
      } else {
        assert Separate(f, f(x, false), f(x, true), |a| - 1);
        StillApart(f, f(x, a[0]), f(x, b[0]), a[1..], b[1..]);
      }
    }
  }

  // Two bit strings that differ only inside a window of at most w bits lead apart.
  lemma BurstLeadsApart<S(!new)>(f: Machine<S>, w: nat, s: S, a: seq<bool>, b: seq<bool>, k: nat, n: nat)
    requires Reversible(f) && Branching(f, w)
    requires n <= w && k + n <= |a| == |b|
    requires a[..k] == b[..k] && a[k + n..] == b[k + n..] && a != b
    ensures Run(f, s, a) != Run(f, s, b)
  {
    var start, wa, wb := Run(f, s, a[..k]), a[k..k + n], b[k..k + n];
    RunAround(f, s, a, k, n);
    RunAround(f, s, b, k, n);
    assert wa != wb by {
      assert a == a[..k] + wa + a[k + n..];
      assert b == b[..k] + wb + b[k + n..];
    }
    WindowIsInjective(f, w, start, wa, wb);
    RunIsInjective(f, Run(f, start, wa), Run(f, start, wb), a[k + n..]);
  }
}
