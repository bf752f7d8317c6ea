/**
 The greeting rotator: each call of the show step displays the greeting at
 the call counter modulo the number of greetings and then advances the
 counter. The first call happens at start-up, the rest on a fixed
 interval.
 */
module HelloRotator {

  const Hellos: seq<string> := [
    "Hello!", "नमस्ते!", "こんにちは!", "안녕하세요!", "Hola!",
    "Bonjour!", "Ciao!", "Guten Tag!", "Olá!", "Привет!",
    "مرحبا!", "你好!", "สวัสดี!", "Kia ora!", "Salut!"
  ]

  /** The greeting shown by the call made when the counter is `i`; the
      counter never indexes outside the list. */
  function Greeting(hellos: seq<string>, i: nat): (g: string)
    requires |hellos| > 0
    ensures g in hellos
    ensures i < |hellos| ==> g == hellos[i]
  {
    hellos[i % |hellos|]
  }

  /** One show step: the text displayed and the advanced counter. */
  function ShowHello(hellos: seq<string>, i: nat): (r: (string, nat))
    requires |hellos| > 0
    ensures r.0 in hellos && r.1 == i + 1
    ensures i < |hellos| ==> r.0 == hellos[i]
  {
    (Greeting(hellos, i), i + 1)
  }

  /** The rotation repeats with a period of the list's length. */
  lemma {:induction false} GreetingsRepeat(hellos: seq<string>, i: nat)
    requires |hellos| > 0
    ensures Greeting(hellos, i + |hellos|) == Greeting(hellos, i)
  {
    var n := |hellos|;
    DivModUnique(i + n, n, i / n + 1, i % n);
  }

  /** The rotation walks the list in order, from its first greeting, in
      every cycle: the `q`-th time round, show `k` of the cycle displays
      greeting `k`. */
  lemma {:induction false} GreetingInOrder(hellos: seq<string>, q: nat, k: nat)
    requires k < |hellos|
    ensures Greeting(hellos, q * |hellos| + k) == hellos[k]
    decreases q
  {
    if q > 0 {
      GreetingInOrder(hellos, q - 1, k);
      GreetingsRepeat(hellos, (q - 1) * |hellos| + k);
      assert (q - 1) * |hellos| + k + |hellos| == q * |hellos| + k;
    }
  }

  /** Any run of as many consecutive shows as there are greetings displays
      every greeting. */
  lemma {:induction false} EveryGreetingWithinOneCycle(hellos: seq<string>, start: nat, j: nat)
    requires j < |hellos|
    ensures exists k :: start <= k < start + |hellos| && Greeting(hellos, k) == hellos[j]
  {
    var n := |hellos|;
    var q := start / n;
    var r := start % n;
    var k := if j >= r then q * n + j else (q + 1) * n + j;
    assert start == q * n + r;
    assert k % n == j by {
      if j >= r {
        DivModUnique(k, n, q, j);
      } else {
        DivModUnique(k, n, q + 1, j);
      }
    }
    assert Greeting(hellos, k) == hellos[j];
  }

  /** Quotient and remainder are determined by the division equation. */
  lemma DivModUnique(x: int, n: int, q: int, r: int)
    requires n > 0 && 0 <= r < n && x == q * n + r
    ensures x % n == r && x / n == q
  {
    var q', r' := x / n, x % n;
    assert (q - q') * n == r' - r;
    MultipleInOpenInterval(q - q', n);
  }

  /** The only multiple of `n` strictly between `-n` and `n` is zero. */
  lemma MultipleInOpenInterval(d: int, n: int)
    requires n > 0 && -n < d * n < n
    ensures d == 0
  {
  }

  /** The shipped list has fifteen greetings, all different. */
  lemma HellosDistinct()
    ensures |Hellos| == 15
    ensures forall a, b :: 0 <= a < b < |Hellos| ==> Hellos[a] != Hellos[b]
  {
  }

  /** With greetings that are all different, no text repeats within a run
      of as many consecutive shows as there are greetings. */
  lemma ConsecutiveShowsDiffer(hellos: seq<string>, start: nat, a: nat, b: nat)
    requires forall x, y :: 0 <= x < y < |hellos| ==> hellos[x] != hellos[y]
    requires a < b < |hellos|
    ensures Greeting(hellos, start + a) != Greeting(hellos, start + b)
  {
    var n := |hellos|;
    var x, y := start + a, start + b;
    if x % n == y % n {
      assert y - x == (y / n - x / n) * n;
      MultipleInOpenInterval(y / n - x / n, n);
      assert false;
    }
    if x % n < y % n {
      assert hellos[x % n] != hellos[y % n];
    } else {
      assert hellos[y % n] != hellos[x % n];
    }
  }

  /** The page's fifteen greetings: any fifteen consecutive shows display
      fifteen different texts. */
  lemma ShippedRotationNeverRepeatsWithinCycle(start: nat, a: nat, b: nat)
    requires a < b < |Hellos|
    ensures Greeting(Hellos, start + a) != Greeting(Hellos, start + b)
  {
    HellosDistinct();
    ConsecutiveShowsDiffer(Hellos, start, a, b);
  }
}
