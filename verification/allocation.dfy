/**
 * The allocation rule of `asignar_dinero` on values: the `(prioridad, nombre,
 * costo)` tuples, Python's ordering of them, the order in which `heapq` hands
 * them out, and the grants the `while` loop makes while money lasts.
 */
module Allocation {

  /** The tuple `(prioridad, nombre, costo)` pushed on the heap for a need or sub-need. */
  datatype Item = Item(priority: int, name: string, cost: int)

  /** One entry of the result: the tuple popped and the money it received. */
  datatype Grant = Grant(item: Item, amount: int)

  /** Python's `<=` on strings: code point by code point, a prefix first. */
  predicate StrLeq(a: string, b: string)
    decreases |a|
  {
    a == [] || (b != [] && (a[0] < b[0] || (a[0] == b[0] && StrLeq(a[1..], b[1..]))))
  }

  lemma {:induction false} StrLeqTotal(a: string, b: string)
    ensures StrLeq(a, b) || StrLeq(b, a)
    decreases |a|
  {
    if a != [] && b != [] && a[0] == b[0] {
      StrLeqTotal(a[1..], b[1..]);
    }
  }

  lemma {:induction false} StrLeqAntisymmetric(a: string, b: string)
    requires StrLeq(a, b) && StrLeq(b, a)
    ensures a == b
    decreases |a|
  {
    if a != [] && b != [] {
      StrLeqAntisymmetric(a[1..], b[1..]);
      assert a == [a[0]] + a[1..] && b == [b[0]] + b[1..];
    }
  }

  lemma {:induction false} StrLeqTransitive(a: string, b: string, c: string)
    requires StrLeq(a, b) && StrLeq(b, c)
    ensures StrLeq(a, c)
    decreases |a|
  {
    if a != [] && b != [] && c != [] && a[0] == b[0] && b[0] == c[0] {
      StrLeqTransitive(a[1..], b[1..], c[1..]);
    }
  }

  /** Python's `<=` on `(prioridad, nombre, costo)` tuples: lexicographic. */
  predicate ItemLeq(x: Item, y: Item) {
    || x.priority < y.priority
    || (x.priority == y.priority && x.name != y.name && StrLeq(x.name, y.name))
    || (x.priority == y.priority && x.name == y.name && x.cost <= y.cost)
  }

  /** The tuple order is total, antisymmetric and transitive. */
  lemma ItemLeqTotalOrder(x: Item, y: Item, z: Item)
    ensures ItemLeq(x, y) || ItemLeq(y, x)
    ensures ItemLeq(x, y) && ItemLeq(y, x) ==> x == y
    ensures ItemLeq(x, y) && ItemLeq(y, z) ==> ItemLeq(x, z)
  {
    StrLeqTotal(x.name, y.name);
    if StrLeq(x.name, y.name) && StrLeq(y.name, x.name) {
      StrLeqAntisymmetric(x.name, y.name);
    }
    if StrLeq(x.name, y.name) && StrLeq(y.name, z.name) {
      StrLeqTransitive(x.name, y.name, z.name);
      if StrLeq(z.name, x.name) {
        StrLeqTransitive(y.name, z.name, x.name);
        StrLeqAntisymmetric(x.name, y.name);
        StrLeqAntisymmetric(y.name, z.name);
      }
    }
  }

  /** `x` is a smallest tuple of `h`. */
  predicate IsLeast(x: Item, h: multiset<Item>) {
    x in h && forall y :: y in h ==> ItemLeq(x, y)
  }

  /** Every non-empty heap has a smallest tuple. */
  lemma {:induction false} LeastExists(h: multiset<Item>)
    requires h != multiset{}
    ensures exists x :: IsLeast(x, h)
    decreases |h|
  {
    var z :| z in h;
    var rest := h - multiset{z};
    assert h == rest + multiset{z};
    if rest == multiset{} {
      assert IsLeast(z, h) by {
        forall y | y in h ensures ItemLeq(z, y) {
          assert y == z;
        }
      }
    } else {
      LeastExists(rest);
      var m :| IsLeast(m, rest);
      ItemLeqTotalOrder(m, z, z);
      var x := if ItemLeq(m, z) then m else z;
      forall y | y in h ensures ItemLeq(x, y) {
        ItemLeqTotalOrder(x, m, y);
        ItemLeqTotalOrder(z, y, y);
        if y != z {
          assert y in rest;
        }
      }
      assert IsLeast(x, h);
    }
  }

  /** A heap has only one smallest tuple. */
  lemma LeastUnique(x: Item, y: Item, h: multiset<Item>)
    requires IsLeast(x, h) && IsLeast(y, h)
    ensures x == y
  {
    ItemLeqTotalOrder(x, y, y);
  }

  /** `heapq.heappop`: the smallest tuple of a non-empty heap. */
  ghost function Least(h: multiset<Item>): (x: Item)
    requires h != multiset{}
    ensures IsLeast(x, h)
  {
    LeastExists(h);
    var x :| IsLeast(x, h);
    x
  }

  /** The order in which repeated `heappop` empties the heap `h`. */
  ghost function Ascending(h: multiset<Item>): seq<Item>
    decreases |h|
  {
    if h == multiset{} then []
    else
      var x := Least(h);
      [x] + Ascending(h - multiset{x})
  }

  /** Popping the smallest tuple `x` leaves the rest of the order. */
  lemma AscendingPop(h: multiset<Item>, x: Item)
    requires IsLeast(x, h)
    ensures Ascending(h) == [x] + Ascending(h - multiset{x})
  {
    LeastUnique(x, Least(h), h);
  }

  /** Each tuple leaves the heap once: the order is a permutation of the heap. */
  lemma {:induction false} AscendingPermutes(h: multiset<Item>)
    ensures multiset(Ascending(h)) == h
    decreases |h|
  {
    if h != multiset{} {
      var x := Least(h);
      AscendingPermutes(h - multiset{x});
      assert multiset([x] + Ascending(h - multiset{x})) == multiset{x} + (h - multiset{x});
    }
  }

  /** The tuples `s` are in ascending order. */
  predicate Ascends(s: seq<Item>) {
    forall i, j :: 0 <= i < j < |s| ==> ItemLeq(s[i], s[j])
  }

  /** A tuple no greater than any of an ascending list can go in front of it. */
  lemma ConsAscends(x: Item, s: seq<Item>)
    requires Ascends(s) && forall y :: y in s ==> ItemLeq(x, y)
    ensures Ascends([x] + s)
  {
    var t := [x] + s;
    forall i, j | 0 <= i < j < |t| ensures ItemLeq(t[i], t[j]) {
      assert t[j] == s[j - 1];
      if i > 0 {
        assert t[i] == s[i - 1];
      }
    }
  }

  /** The tuples come out in ascending order. */
  lemma {:induction false} AscendingSorted(h: multiset<Item>)
    ensures Ascends(Ascending(h))
    decreases |h|
  {
    if h != multiset{} {
      var x := Least(h);
      var rest := Ascending(h - multiset{x});
      AscendingSorted(h - multiset{x});
      AscendingPermutes(h - multiset{x});
      forall y | y in rest ensures ItemLeq(x, y) {
        assert y in multiset(rest);
      }
      ConsAscends(x, rest);
    }
  }

  /** `heapq.heappop`: takes a smallest tuple off a non-empty heap. */
  method PopLeast(heap: multiset<Item>) returns (x: Item, rest: multiset<Item>)
    requires heap != multiset{}
    ensures IsLeast(x, heap) && rest == heap - multiset{x}
    ensures Ascending(heap) == [x] + Ascending(rest)
  {
    LeastExists(heap);
    x :| IsLeast(x, heap);
    rest := heap - multiset{x};
    AscendingPop(heap, x);
  }

  /** What the allocation loop leaves: the grants it made, in order, and the money left. */
  datatype Outcome = Outcome(grants: seq<Grant>, left: int)

  /**
   * The `while heap and dinero_disponible > 0` loop over the tuples `items`
   * in the order they are popped, starting with `money` and with the names in
   * `seen` already visited: a tuple whose name was seen is skipped; one whose
   * cost the money covers receives its cost; otherwise it receives what is
   * left and the money is spent.
   */
  function Distribute(items: seq<Item>, money: int, seen: set<string>): (o: Outcome)
    ensures |o.grants| <= |items|
    decreases |items|
  {
    if items == [] || money <= 0 then Outcome([], money)
    else
      var x := items[0];
      if x.name in seen then Distribute(items[1..], money, seen)
      else if x.cost <= money then
        var o := Distribute(items[1..], money - x.cost, seen + {x.name});
        Outcome([Grant(x, x.cost)] + o.grants, o.left)
      else Outcome([Grant(x, money)], 0)
  }

  /**
   * `plan` is what the loop does from the start when it has made the grants
   * `done` and has the tuples `pending` still to pop, in order, with `money`
   * left and the names `seen` visited.
   */
  ghost predicate Ahead(plan: Outcome, done: seq<Grant>, pending: seq<Item>, money: int, seen: set<string>) {
    && plan.grants == done + Distribute(pending, money, seen).grants
    && plan.left == Distribute(pending, money, seen).left
  }

  /** Once no tuple is pending or the money is spent, the loop has made all its grants. */
  lemma Finished(plan: Outcome, done: seq<Grant>, pending: seq<Item>, money: int, seen: set<string>)
    requires Ahead(plan, done, pending, money, seen) && (pending == [] || money <= 0)
    ensures plan.grants == done && plan.left == money
  {
    assert done + [] == done;
  }

  /** A turn of the loop that pops a tuple whose name was seen grants nothing. */
  lemma SkippedTurn(plan: Outcome, done: seq<Grant>, x: Item, rest: seq<Item>, money: int, seen: set<string>)
    requires Ahead(plan, done, [x] + rest, money, seen)
    requires money > 0 && x.name in seen
    ensures Ahead(plan, done, rest, money, seen)
  {
    assert ([x] + rest)[1..] == rest;
  }

  /**
   * A turn of the loop that pops a tuple whose name was not seen grants it
   * its cost or, when that is more, all the money left. The state after
   * the turn is passed in (`done'`, `money'`, `seen'`) so that the result is
   * stated on the very terms of the caller's loop invariant.
   */
  lemma GrantedTurn(plan: Outcome, done: seq<Grant>, x: Item, rest: seq<Item>, money: int, seen: set<string>,
                    amount: int, done': seq<Grant>, money': int, seen': set<string>)
    requires Ahead(plan, done, [x] + rest, money, seen)
    requires money > 0 && x.name !in seen
    requires amount == if x.cost <= money then x.cost else money
    requires done' == done + [Grant(x, amount)] && money' == money - amount && seen' == seen + {x.name}
    ensures Ahead(plan, done', rest, money', seen')
  {
    assert ([x] + rest)[1..] == rest;
    var tail := Distribute(rest, money', seen');
    if x.cost > money {
      assert tail == Outcome([], 0);
    }
    assert done + ([Grant(x, amount)] + tail.grants) == done' + tail.grants;
  }

  /** The `(nombre, cantidad)` pairs `asignar_dinero` returns for the grants `g`. */
  function Receipts(g: seq<Grant>): (r: seq<(string, int)>)
    ensures |r| == |g|
  {
    if g == [] then [] else [(g[0].item.name, g[0].amount)] + Receipts(g[1..])
  }

  /** A grant made at the end adds its receipt at the end. */
  lemma {:induction false} ReceiptsAppend(g: seq<Grant>, e: Grant)
    ensures Receipts(g + [e]) == Receipts(g) + [(e.item.name, e.amount)]
  {
    if g != [] {
      ReceiptsAppend(g[1..], e);
      assert (g + [e])[1..] == g[1..] + [e];
    }
  }

  /** The money handed out by the grants `g`. */
  function Total(g: seq<Grant>): int {
    if g == [] then 0 else g[0].amount + Total(g[1..])
  }

  /** Conservation: the money handed out plus the money left is the money there was. */
  lemma {:induction false} DistributeConserves(items: seq<Item>, money: int, seen: set<string>)
    ensures Total(Distribute(items, money, seen).grants) + Distribute(items, money, seen).left == money
    decreases |items|
  {
    if items != [] && money > 0 {
      var x := items[0];
      if x.name in seen {
        DistributeConserves(items[1..], money, seen);
      } else if x.cost <= money {
        DistributeConserves(items[1..], money - x.cost, seen + {x.name});
        var g := Distribute(items[1..], money - x.cost, seen + {x.name}).grants;
        assert ([Grant(x, x.cost)] + g)[1..] == g;
      }
    }
  }

  /**
   * With non-negative money and costs, the money left lies between 0 and the
   * money there was, and every grant between 0 and the cost of its tuple.
   */
  lemma {:induction false} DistributeBounds(items: seq<Item>, money: int, seen: set<string>)
    requires money >= 0 && forall i :: 0 <= i < |items| ==> items[i].cost >= 0
    ensures 0 <= Distribute(items, money, seen).left <= money
    ensures forall g :: g in Distribute(items, money, seen).grants ==> 0 <= g.amount <= g.item.cost
    decreases |items|
  {
    if items != [] && money > 0 {
      var x := items[0];
      if x.name in seen {
        DistributeBounds(items[1..], money, seen);
      } else if x.cost <= money {
        DistributeBounds(items[1..], money - x.cost, seen + {x.name});
      }
    }
  }

  /**
   * Every grant goes to one of the tuples `items` whose name was not seen
   * before, and no name receives two grants.
   */
  lemma {:induction false} DistributeNames(items: seq<Item>, money: int, seen: set<string>)
    ensures forall g :: g in Distribute(items, money, seen).grants ==> g.item in items && g.item.name !in seen
    ensures forall i, j :: 0 <= i < j < |Distribute(items, money, seen).grants| ==>
      Distribute(items, money, seen).grants[i].item.name != Distribute(items, money, seen).grants[j].item.name
    decreases |items|
  {
    if items != [] && money > 0 {
      var x := items[0];
      var o := Distribute(items, money, seen);
      if x.name in seen {
        DistributeNames(items[1..], money, seen);
        forall g | g in o.grants ensures g.item in items {
          assert g.item in items[1..];
        }
      } else if x.cost <= money {
        var r := Distribute(items[1..], money - x.cost, seen + {x.name});
        DistributeNames(items[1..], money - x.cost, seen + {x.name});
        assert o.grants == [Grant(x, x.cost)] + r.grants;
        forall g | g in o.grants ensures g.item in items && g.item.name !in seen {
          if g != Grant(x, x.cost) {
            assert g in r.grants;
            assert g.item in items[1..];
          }
        }
        forall i, j | 0 <= i < j < |o.grants| ensures o.grants[i].item.name != o.grants[j].item.name {
          assert o.grants[j] == r.grants[j - 1];
          if i == 0 {
            assert r.grants[j - 1] in r.grants;
          } else {
            assert o.grants[i] == r.grants[i - 1];
          }
        }
      }
    }
  }

  /**
   * Each grant is the cost of its tuple or, when that is more, the money
   * remaining when the tuple was popped; a grant short of its cost is the
   * last one and leaves no money.
   */
  lemma {:induction false} DistributeGrants(items: seq<Item>, money: int, seen: set<string>, i: nat)
    requires i < |Distribute(items, money, seen).grants|
    ensures var g := Distribute(items, money, seen).grants[i];
      var remaining := money - Total(Distribute(items, money, seen).grants[..i]);
      g.amount == if g.item.cost <= remaining then g.item.cost else remaining
    ensures var g := Distribute(items, money, seen).grants[i];
      g.amount < g.item.cost ==> i == |Distribute(items, money, seen).grants| - 1 && Distribute(items, money, seen).left == 0
    decreases |items|
  {
    var x := items[0];
    if x.name in seen {
      DistributeGrants(items[1..], money, seen, i);
    } else if x.cost <= money {
      var r := Distribute(items[1..], money - x.cost, seen + {x.name});
      var o := Distribute(items, money, seen);
      assert o.grants == [Grant(x, x.cost)] + r.grants;
      if i > 0 {
        DistributeGrants(items[1..], money - x.cost, seen + {x.name}, i - 1);
        assert o.grants[..i] == [Grant(x, x.cost)] + r.grants[..i - 1];
        assert (o.grants[..i])[1..] == r.grants[..i - 1];
      } else {
        assert o.grants[..0] == [];
      }
    } else {
      assert Distribute(items, money, seen).grants[..0] == [];
    }
  }

  /** On tuples in ascending order the grants come in ascending order. */
  lemma {:induction false} DistributeOrdered(items: seq<Item>, money: int, seen: set<string>)
    requires Ascends(items)
    ensures forall i, j :: 0 <= i < j < |Distribute(items, money, seen).grants| ==>
      ItemLeq(Distribute(items, money, seen).grants[i].item, Distribute(items, money, seen).grants[j].item)
    decreases |items|
  {
    if items != [] && money > 0 {
      var x := items[0];
      if x.name in seen {
        DistributeOrdered(items[1..], money, seen);
      } else if x.cost <= money {
        var r := Distribute(items[1..], money - x.cost, seen + {x.name});
        var o := Distribute(items, money, seen);
        DistributeOrdered(items[1..], money - x.cost, seen + {x.name});
        DistributeNames(items[1..], money - x.cost, seen + {x.name});
        assert o.grants == [Grant(x, x.cost)] + r.grants;
        forall i, j | 0 <= i < j < |o.grants| ensures ItemLeq(o.grants[i].item, o.grants[j].item) {
          assert o.grants[j] == r.grants[j - 1];
          if i == 0 {
            assert r.grants[j - 1] in r.grants;
            var k :| 0 <= k < |items[1..]| && items[1..][k] == r.grants[j - 1].item;
            assert items[k + 1] == o.grants[j].item;
          } else {
            assert o.grants[i] == r.grants[i - 1];
          }
        }
      }
    }
  }

  /**
   * The loop stops with money left only once every tuple has been popped:
   * then the name of each of the tuples `items` was seen before or received
   * a grant.
   */
  lemma {:induction false} DistributeExhausts(items: seq<Item>, money: int, seen: set<string>, x: Item)
    requires Distribute(items, money, seen).left > 0 && x in items
    ensures x.name in seen || exists g :: g in Distribute(items, money, seen).grants && g.item.name == x.name
    decreases |items|
  {
    if money > 0 {
      var y := items[0];
      var o := Distribute(items, money, seen);
      if y.name in seen {
        if x != y {
          DistributeExhausts(items[1..], money, seen, x);
        }
      } else if y.cost <= money {
        var r := Distribute(items[1..], money - y.cost, seen + {y.name});
        assert o.grants == [Grant(y, y.cost)] + r.grants;
        if x.name == y.name {
          assert o.grants[0] in o.grants;
        } else if x.name !in seen {
          DistributeExhausts(items[1..], money - y.cost, seen + {y.name}, x);
          var g :| g in r.grants && g.item.name == x.name;
          assert g in o.grants;
        }
      }
    }
  }
}
