/** The port scan of netcat: the ports of each argument, from the top down or in random order. */
module PortScan {
  const PORTS: nat := 0x1_0000
  /** How often a random port is tried before the search from the top. */
  const TRIES: nat := 70000

  const TO_TEST: nat := 1
  const TESTED: nat := 2

  /** A port argument: a number, or a range; `hi` is 0 for a single number. */
  datatype PortArg = PortArg(lo: nat, hi: nat)

  predicate Proper(a: PortArg) {
    1 <= a.lo < PORTS && a.hi < PORTS
  }

  /** The ports that an argument stands for; "25-25" and "30-25" stand for their first number. */
  function PortsOf(a: PortArg): set<nat> {
    if a.hi > a.lo then Between(a.lo, a.hi) else {a.lo}
  }

  function Between(lo: nat, hi: nat): set<nat> {
    set p | lo <= p <= hi && InRange(p, lo, hi)
  }

  predicate InRange(p: nat, lo: nat, hi: nat) {
    lo <= p <= hi
  }

  /** An argument stands for its first number, and for what lies between its numbers if the second is greater. */
  lemma ArgumentPorts(a: PortArg, p: nat)
    ensures p in PortsOf(a) <==> p == a.lo || a.lo <= p <= a.hi
  {
    assert InRange(p, a.lo, a.hi) <==> a.lo <= p <= a.hi;
  }

  function Downward(hi: nat, lo: nat): (r: seq<nat>)
    requires lo >= 1
    decreases hi
  {
    if hi < lo then [] else [hi] + Downward(hi - 1, lo)
  }

  /** Every port of the set once, and no other. */
  ghost predicate EachOnce(visited: seq<nat>, ports: set<nat>) {
    multiset(visited) == multiset(ports)
  }

  /** Each port of the range occurs exactly once from the top down. */
  lemma {:induction false} DownwardOnce(hi: nat, lo: nat)
    requires lo >= 1
    ensures EachOnce(Downward(hi, lo), Between(lo, hi))
    decreases hi
  {
    if hi >= lo {
      DownwardOnce(hi - 1, lo);
      forall p ensures p in Between(lo, hi) <==> p == hi || p in Between(lo, hi - 1) {
        assert InRange(p, lo, hi) || !InRange(p, lo, hi - 1);
      }
      assert Between(lo, hi) == {hi} + Between(lo, hi - 1);
      assert Downward(hi, lo) == [hi] + Downward(hi - 1, lo);
    }
  }

  lemma {:induction false} DownwardNext(hi: nat, lo: nat, cur: nat)
    requires 1 <= lo <= cur <= hi
    ensures Downward(hi, cur) == Downward(hi, cur + 1) + [cur]
    decreases hi
  {
    if cur < hi {
      DownwardNext(hi - 1, lo, cur);
    }
  }

  // ---------------------------------------------------------------- the random port block

  class Scanner {
    const block: array<nat>
    /** The random source, whatever it is, and how many numbers have been drawn. */
    const draw: nat -> nat
    var drawn: nat

    constructor (draw: nat -> nat)
      ensures Valid() && fresh(block) && ToTest() == {}
    {
      this.draw := draw;
      block := new nat[PORTS](_ => 0);
      drawn := 0;
    }

    ghost predicate Valid() {
      block.Length == PORTS
    }

    /** The ports that are to be tested. */
    ghost function ToTest(): set<nat>
      requires Valid()
      reads this, block
    {
      set x | 1 <= x < PORTS && block[x] == TO_TEST
    }

    method Rand() returns (x: nat)
      modifies this`drawn
      ensures x < PORTS
    {
      x := draw(drawn) % PORTS;
      drawn := drawn + 1;
    }

    /** loadports: mark the ports from hi down to lo. */
    method LoadPorts(lo: nat, hi: nat)
      requires Valid() && 1 <= lo < PORTS && 1 <= hi < PORTS
      modifies block
      ensures ToTest() == old(ToTest()) + Between(lo, hi)
    {
      var x := hi;
      while lo <= x
        invariant x <= hi && (lo <= hi ==> lo <= x + 1)
        invariant forall j :: 0 <= j < PORTS ==> block[j] == if x < j <= hi && lo <= j then TO_TEST else old(block[j])
      {
        block[x] := TO_TEST;
        x := x - 1;
      }
      forall p | 1 <= p < PORTS ensures p in ToTest() <==> p in old(ToTest()) + Between(lo, hi) {
        assert InRange(p, lo, hi) <==> lo <= p <= hi;
      }
    }

    /** nextport: one of the ports to be tested, whatever the random source says; 0 if there is none. */
    method NextPort() returns (port: nat)
      requires Valid()
      modifies this`drawn, block
      ensures port == 0 <==> old(ToTest()) == {}
      ensures port != 0 ==> port in old(ToTest())
      ensures ToTest() == old(ToTest()) - {port}
    {
      port := 0;
      var y := TRIES;
      while y > 0
        invariant 0 <= y && port == 0
        invariant forall j :: 1 <= j < PORTS ==> block[j] == old(block[j])
      {
        var x := Rand();
        if block[x] == TO_TEST {
          block[x] := TESTED;
          port := x;
          assert port != 0 ==> port in old(ToTest()) && ToTest() == old(ToTest()) - {port};
          break;
        }
        y := y - 1;
      }
      if port != 0 {
        return;
      }
      y := PORTS - 1;
      while y > 0
        invariant 0 <= y < PORTS
        invariant forall j :: 1 <= j < PORTS ==> block[j] == old(block[j])
        invariant forall j :: y < j < PORTS ==> block[j] != TO_TEST
      {
        if block[y] == TO_TEST {
          block[y] := TESTED;
          assert y in old(ToTest()) && ToTest() == old(ToTest()) - {y};
          return y;
        }
        y := y - 1;
      }
    }

    /** The connections of one argument. */
    method ScanArg(a: PortArg, random: bool) returns (visited: seq<nat>)
      requires Valid() && Proper(a) && ToTest() == {}
      modifies this`drawn, block
      ensures EachOnce(visited, PortsOf(a)) && ToTest() == {}
      ensures !random && a.hi > a.lo ==> visited == Downward(a.hi, a.lo)
    {
      visited := [];
      var curport := a.lo;
      if a.hi > a.lo {
        curport := a.hi;
        if random {
          LoadPorts(a.lo, a.hi);
          curport := NextPort();
        }
      }
      if random {
        visited := ScanRandom(a.lo, curport);
      } else {
        visited := ScanDown(a.lo, curport);
        DownwardOnce(curport, a.lo);
        if curport == a.lo {
          assert Between(a.lo, curport) == {a.lo};
        }
      }
    }

    /** The connection loop with random ports. */
    method ScanRandom(lo: nat, first: nat) returns (visited: seq<nat>)
      requires Valid() && 1 <= lo <= first && first !in ToTest() && forall p :: p in ToTest() ==> lo <= p
      modifies this`drawn, block
      ensures ToTest() == {} && EachOnce(visited, old(ToTest()) + {first})
    {
      visited := [];
      var curport := first;
      ghost var all := ToTest() + {first};
      while lo <= curport
        invariant curport != 0 ==> lo <= curport && curport !in ToTest()
        invariant forall p :: p in ToTest() ==> lo <= p
        invariant curport == 0 ==> ToTest() == {}
        invariant multiset(visited) + multiset(if curport == 0 then {} else {curport}) + multiset(ToTest()) == multiset(all)
        decreases |ToTest()|, curport
      {
        visited := visited + [curport];
        ghost var left := ToTest();
        curport := NextPort();
        assert curport != 0 ==> left == ToTest() + {curport} && curport !in ToTest();
      }
    }

    /** The connection loop from the top down. */
    method ScanDown(lo: nat, hi: nat) returns (visited: seq<nat>)
      requires 1 <= lo <= hi
      ensures visited == Downward(hi, lo)
    {
      visited := [];
      var curport := hi;
      while lo <= curport
        invariant lo <= curport + 1 && curport <= hi && visited == Downward(hi, curport + 1)
      {
        DownwardNext(hi, lo, curport);
        visited := visited + [curport];
        curport := curport - 1;
      }
    }

    /** All arguments, one after the other: whatever the random source does, each port of each argument
        is tried exactly once in its turn. */
    method ScanAll(args: seq<PortArg>, random: bool) returns (visited: seq<seq<nat>>)
      requires Valid() && ToTest() == {} && forall k :: 0 <= k < |args| ==> Proper(args[k])
      modifies this`drawn, block
      ensures |visited| == |args| && ToTest() == {}
      ensures forall k :: 0 <= k < |args| ==> EachOnce(visited[k], PortsOf(args[k]))
    {
      hide EachOnce;
      visited := [];
      for k := 0 to |args|
        invariant |visited| == k && ToTest() == {}
        invariant forall j :: 0 <= j < k ==> EachOnce(visited[j], PortsOf(args[j]))
      {
        var ports := ScanArg(args[k], random);
        visited := visited + [ports];
      }
    }
  }

  /** Once each means: as often as there are ports, and every port that belongs. */
  lemma OnceMeans(visited: seq<nat>, ports: set<nat>, p: nat)
    requires EachOnce(visited, ports)
    ensures multiset(visited)[p] == if p in ports then 1 else 0
  {
  }
}
