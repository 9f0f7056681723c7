/**
 Bookkeeping shared by the hub revisions in backend/client.go and
 backend/server.go: a live set of clients and, per source address, a count of
 connections. The per-address `rate.Limiter` that sits beside each count is
 not state of this model: its `Allow()` answer is an input of each broadcast.
 */
module Registry {

  /** A resolved `netip.Addr`; only its identity matters here. */
  type Addr = string

  /** A `*Client`: `id` stands for the address of the Go value. */
  datatype Client = Client(id: nat, addr: Addr)

  /** The clients of `s` whose source address is `a`. */
  function AtAddr(s: set<Client>, a: Addr): (r: set<Client>)
    ensures r <= s
    ensures forall c :: c in r <==> c in s && c.addr == a
  {
    set c | c in s && c.addr == a
  }

  /** The elements of a sequence. */
  function Elems<T>(xs: seq<T>): set<T> {
    set i | 0 <= i < |xs| :: xs[i]
  }

  predicate NoDuplicates<T(==)>(xs: seq<T>) {
    forall i, j :: 0 <= i < j < |xs| ==> xs[i] != xs[j]
  }

  /**
   The per-address counts after each client of `dead` has been removed once:
   an address loses one per removed client and its entry goes once the
   count it ends with is at most zero.
   */
  function DropCounts(counts: map<Addr, int>, dead: set<Client>): map<Addr, int> {
    map a | a in counts && (|AtAddr(dead, a)| == 0 || counts[a] - |AtAddr(dead, a)| > 0)
      :: counts[a] - |AtAddr(dead, a)|
  }

  /**
   Removing the clients of `dead` one at a time, in any order, always finds
   the removed client's address entry: every address holds at least as many
   counts as there are clients of `dead` from it.
   */
  predicate CanDrop(counts: map<Addr, int>, dead: set<Client>) {
    forall c :: c in dead ==> c.addr in counts && counts[c.addr] >= |AtAddr(dead, c.addr)|
  }

  lemma AtAddrInsert(s: set<Client>, c: Client, a: Addr)
    requires c !in s
    ensures |AtAddr(s + {c}, a)| == |AtAddr(s, a)| + (if c.addr == a then 1 else 0)
  {
    if c.addr == a {
      assert AtAddr(s + {c}, a) == AtAddr(s, a) + {c};
    } else {
      assert AtAddr(s + {c}, a) == AtAddr(s, a);
    }
  }

  lemma AtAddrDelete(s: set<Client>, c: Client, a: Addr)
    requires c in s
    ensures |AtAddr(s - {c}, a)| == |AtAddr(s, a)| - (if c.addr == a then 1 else 0)
  {
    AtAddrInsert(s - {c}, c, a);
    assert s - {c} + {c} == s;
  }

  lemma SubsetCard<T>(s: set<T>, t: set<T>)
    requires s <= t
    ensures |s| <= |t|
  {
    assert s !! (t - s);
    assert t == s + (t - s);
  }

  lemma AtAddrMono(s: set<Client>, t: set<Client>, a: Addr)
    requires s <= t
    ensures |AtAddr(s, a)| <= |AtAddr(t, a)|
  {
    SubsetCard(AtAddr(s, a), AtAddr(t, a));
  }

  lemma AtAddrDifference(s: set<Client>, d: set<Client>, a: Addr)
    requires d <= s
    ensures |AtAddr(s - d, a)| == |AtAddr(s, a)| - |AtAddr(d, a)|
  {
    var x, y := AtAddr(s - d, a), AtAddr(d, a);
    assert x !! y;
    assert x + y == AtAddr(s, a);
  }

  /**
   Clients spread over a set of addresses, at most `k` per address, hold at
   most `k` times as many clients as there are addresses.
   */
  lemma {:induction false} SpreadBound(s: set<Client>, addrs: set<Addr>, k: nat)
    requires forall c :: c in s ==> c.addr in addrs
    requires forall a :: a in addrs ==> |AtAddr(s, a)| <= k
    ensures |s| <= k * |addrs|
    decreases addrs
  {
    if addrs != {} {
      var a :| a in addrs;
      var here := AtAddr(s, a);
      var rest := s - here;
      var others := addrs - {a};
      forall c | c in rest ensures c.addr in others {
      }
      forall b | b in others ensures |AtAddr(rest, b)| <= k {
        AtAddrMono(rest, s, b);
      }
      SpreadBound(rest, others, k);
      assert here !! rest && s == here + rest;
      assert |others| == |addrs| - 1;
      OneMore(k, |others|);
    }
  }

  lemma OneMore(k: nat, n: nat)
    ensures k * n + k == k * (n + 1)
  {
  }

  lemma ElemsCons<T>(xs: seq<T>)
    requires |xs| > 0
    ensures Elems(xs) == {xs[0]} + Elems(xs[1..])
  {
    forall x | x in Elems(xs) ensures x in {xs[0]} + Elems(xs[1..]) {
      var i :| 0 <= i < |xs| && xs[i] == x;
      if i > 0 { assert xs[1..][i - 1] == x; }
    }
  }

  /**
   The count table after one client from `a` leaves: one less, and the entry
   goes when that leaves it at or below zero.
   */
  function Decrement(counts: map<Addr, int>, a: Addr): (r: map<Addr, int>)
    requires a in counts
    ensures a in r <==> counts[a] - 1 > 0
    ensures a in r ==> r[a] == counts[a] - 1
    ensures forall b :: b != a ==> (b in r <==> b in counts) && (b in r ==> r[b] == counts[b])
  {
    if counts[a] - 1 <= 0 then counts - {a} else counts[a := counts[a] - 1]
  }

  lemma CanDropStep(counts: map<Addr, int>, c: Client, rest: set<Client>)
    requires c !in rest
    requires CanDrop(counts, rest + {c})
    ensures c.addr in counts
    ensures CanDrop(Decrement(counts, c.addr), rest)
  {
    assert c in rest + {c};
    var after := Decrement(counts, c.addr);
    forall d | d in rest ensures d.addr in after && after[d.addr] >= |AtAddr(rest, d.addr)| {
      assert d in rest + {c};
      AtAddrInsert(rest, c, d.addr);
      if d.addr == c.addr {
        assert d in AtAddr(rest, d.addr);
      }
    }
  }

  /**
   Dropping `c` from the counts and then the rest is dropping all of them at
   once.
   */
  lemma DropCountsStep(counts: map<Addr, int>, c: Client, rest: set<Client>)
    requires c !in rest
    requires c.addr in counts
    ensures DropCounts(Decrement(counts, c.addr), rest) == DropCounts(counts, rest + {c})
  {
    var lhs, rhs := DropCounts(Decrement(counts, c.addr), rest), DropCounts(counts, rest + {c});
    forall a ensures (a in lhs <==> a in rhs) && (a in lhs ==> lhs[a] == rhs[a]) {
      AtAddrInsert(rest, c, a);
    }
    assert lhs == rhs;
  }
}
