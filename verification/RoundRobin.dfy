/** The round-robin load balancer. */
module RoundRobin {

  class RoundRobin {
    var hosts: seq<string>
    var index: int

    ghost predicate Valid()
      reads this
    {
      hosts != [] && 0 <= index < |hosts|
    }

    constructor (ips: seq<string>)
      ensures hosts == ips && index == 0
    {
      hosts, index := ips, 0;
    }

    /** The next host; taking it modulo the number of hosts needs at least one. */
    method Next() returns (ip: string)
      requires Valid()
      modifies this`index
      ensures Valid() && ip == hosts[old(index)] && index == After(old(index), |hosts|)
    {
      AfterIsMod(index, |hosts|);
      var idx := index;
      index := (index + 1) % |hosts|;
      ip := hosts[idx];
    }
  }

  // ----- fairness of the positions handed out

  /** The position after `i`. */
  function After(i: nat, n: nat): nat { if i + 1 == n then 0 else i + 1 }

  /** The positions used by `count` consecutive requests, the first at `start`. */
  function Positions(start: nat, n: nat, count: nat): (ps: seq<nat>)
    ensures |ps| == count
    decreases count
  {
    if count == 0 then [] else [start] + Positions(After(start, n), n, count - 1)
  }

  lemma Product(a: nat, b: nat, n: nat)
    requires a > b
    ensures a * n >= b * n + n
  {
    assert a * n == (a - 1) * n + n;
    if a - 1 > b {
      Product(a - 1, b, n);
    }
  }

  lemma ModUnique(x: nat, n: nat, q: nat, r: nat)
    requires n > 0 && r < n && x == q * n + r
    ensures x % n == r
  {
    var q', r' := x / n, x % n;
    assert x == n * q' + r';
    if q' > q {
      Product(q', q, n);
    } else if q' < q {
      Product(q, q', n);
    }
  }

  lemma AfterIsMod(i: nat, n: nat)
    requires i < n
    ensures After(i, n) == (i + 1) % n
  {
    if i + 1 == n {
      ModUnique(i + 1, n, 1, 0);
    } else {
      ModUnique(i + 1, n, 0, i + 1);
    }
  }

  lemma AfterMod(x: nat, n: nat)
    requires n > 0
    ensures After(x % n, n) == (x + 1) % n
  {
    var q, r := x / n, x % n;
    assert x == n * q + r && q * n == n * q;
    if r + 1 == n {
      assert (q + 1) * n == q * n + n;
      ModUnique(x + 1, n, q + 1, 0);
    } else {
      ModUnique(x + 1, n, q, r + 1);
    }
  }

  /** The k-th request, counting from 0, uses position k mod n from the start. */
  lemma {:induction false} PositionAt(start: nat, n: nat, count: nat, k: nat)
    requires n > 0 && k < count
    ensures Positions(start % n, n, count)[k] == (start + k) % n
    decreases count
  {
    if k > 0 {
      AfterMod(start, n);
      PositionAt(start + 1, n, count - 1, k - 1);
    }
  }

  /** How often position `p` occurs. */
  function Uses(ps: seq<nat>, p: nat): nat {
    multiset(ps)[p]
  }

  lemma UsesConcat(a: seq<nat>, b: seq<nat>, p: nat)
    ensures Uses(a + b, p) == Uses(a, p) + Uses(b, p)
  {
  }

  /** The position reached after `k` requests. */
  function AfterMany(start: nat, n: nat, k: nat): nat
    decreases k
  {
    if k == 0 then start else AfterMany(After(start, n), n, k - 1)
  }

  lemma {:induction false} AfterManyBound(start: nat, n: nat, k: nat)
    requires start < n
    ensures AfterMany(start, n, k) < n
    decreases k
  {
    if k > 0 {
      AfterManyBound(After(start, n), n, k - 1);
    }
  }

  lemma {:induction false} AfterManyNext(start: nat, n: nat, k: nat)
    ensures AfterMany(start, n, k + 1) == After(AfterMany(start, n, k), n)
    decreases k
  {
    if k > 0 {
      AfterManyNext(After(start, n), n, k - 1);
    }
  }

  lemma {:induction false} AfterManyIsMod(start: nat, n: nat, k: nat)
    requires start < n
    ensures AfterMany(start, n, k) == (start + k) % n
  {
    if k == 0 {
      ModUnique(start, n, 0, start);
    } else {
      AfterManyIsMod(start, n, k - 1);
      AfterManyNext(start, n, k - 1);
      AfterMod(start + k - 1, n);
    }
  }

  lemma {:induction false} PositionsSplit(start: nat, n: nat, a: nat, b: nat)
    ensures Positions(start, n, a + b) == Positions(start, n, a) + Positions(AfterMany(start, n, a), n, b)
    decreases a
  {
    if a > 0 {
      PositionsSplit(After(start, n), n, a - 1, b);
    } else {
      assert [] + Positions(start, n, b) == Positions(start, n, b);
    }
  }

  lemma PositionsNext(start: nat, n: nat, k: nat)
    ensures Positions(start, n, k + 1) == Positions(start, n, k) + [AfterMany(start, n, k)]
  {
    PositionsSplit(start, n, k, 1);
    assert Positions(AfterMany(start, n, k), n, 1) == [AfterMany(start, n, k)];
  }

  /** Up to `n` requests from `start`: the positions up to the end of the list, then from its head. */
  lemma {:induction false} UsesOnce(start: nat, n: nat, count: nat, p: nat)
    requires start < n && p < n && count <= n
    ensures Uses(Positions(start, n, count), p) == if start <= p < start + count || p + n < start + count then 1 else 0
    decreases count
  {
    if count > 0 {
      var next := After(start, n);
      UsesOnce(next, n, count - 1, p);
      UsesConcat([start], Positions(next, n, count - 1), p);
    }
  }

  /** The length of `turns` full turns and `rest` more requests. */
  function Length(turns: nat, n: nat, rest: nat): nat {
    if turns == 0 then rest else n + Length(turns - 1, n, rest)
  }

  lemma {:induction false} EveryLength(count: nat, n: nat) returns (turns: nat, rest: nat)
    requires n > 0
    ensures rest < n && Length(turns, n, rest) == count
  {
    if count < n {
      turns, rest := 0, count;
    } else {
      turns, rest := EveryLength(count - n, n);
      turns := turns + 1;
    }
  }

  /** Over any number of requests each position is used once per full turn, or once more. */
  lemma {:induction false} UsesBalanced(start: nat, n: nat, turns: nat, rest: nat, p: nat)
    requires start < n && p < n && rest < n
    ensures turns <= Uses(Positions(start, n, Length(turns, n, rest)), p) <= turns + 1
    decreases turns
  {
    if turns == 0 {
      UsesOnce(start, n, rest, p);
    } else {
      var count := Length(turns - 1, n, rest);
      PositionsSplit(start, n, n, count);
      var next := AfterMany(start, n, n);
      AfterManyBound(start, n, n);
      UsesConcat(Positions(start, n, n), Positions(next, n, count), p);
      UsesOnce(start, n, n, p);
      UsesBalanced(next, n, turns - 1, rest, p);
    }
  }

  lemma PositionsWindow(start: nat, n: nat, count: nat, a: nat, b: nat)
    requires a <= b <= count
    ensures Positions(start, n, count)[a..b] == Positions(AfterMany(start, n, a), n, b - a)
  {
    PositionsSplit(start, n, a, count - a);
    PositionsSplit(AfterMany(start, n, a), n, b - a, count - b);
  }

  lemma FairFrom(first: nat, n: nat, len: nat, p: nat, q: nat)
    requires first < n && p < n && q < n
    ensures Uses(Positions(first, n, len), p) <= Uses(Positions(first, n, len), q) + 1
    ensures len == n ==> Uses(Positions(first, n, len), p) == 1
  {
    var turns, rest := EveryLength(len, n);
    UsesBalanced(first, n, turns, rest, p);
    UsesBalanced(first, n, turns, rest, q);
    if len == n {
      UsesOnce(first, n, n, p);
    }
  }

  /** Fairness: in any window of requests two positions are used equally often, give or take one,
      and in any window of `n` requests every position is used exactly once. */
  lemma RoundRobinFair(start: nat, n: nat, count: nat, a: nat, b: nat, p: nat, q: nat)
    requires start < n && p < n && q < n && a <= b <= count
    ensures Uses(Positions(start, n, count)[a..b], p) <= Uses(Positions(start, n, count)[a..b], q) + 1
    ensures b - a == n ==> Uses(Positions(start, n, count)[a..b], p) == 1
  {
    PositionsWindow(start, n, count, a, b);
    AfterManyBound(start, n, a);
    FairFrom(AfterMany(start, n, a), n, b - a, p, q);
  }
}
