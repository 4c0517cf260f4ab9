/**
 * `Necesidad` and `Presupuesto`: needs with their sub-needs, kept in a
 * dictionary by name, and the allocation of the available money to them in
 * the order of their `(prioridad, nombre, costo)` tuples.
 */
module Budgets {
  import opened Wrappers
  import opened Lists
  import opened Allocation

  /**
   * A `Necesidad`: its name, priority and cost, the money allotted to it and
   * its sub-needs.
   */
  datatype Need = Need(name: string, priority: int, cost: int, allotted: int, subneeds: seq<Need>)
  {
    /** `agregar_subnecesidad`: appends `sub` to the sub-needs and changes nothing else. */
    function AddSubneed(sub: Need): (n: Need)
      ensures n.subneeds == subneeds + [sub]
      ensures n.(subneeds := subneeds) == this
    {
      this.(subneeds := subneeds + [sub])
    }
  }

  /** `Necesidad(nombre, prioridad, costo)`: nothing allotted yet and no sub-needs. */
  function NewNeed(name: string, priority: int, cost: int): (n: Need)
    ensures Tuple(n) == Item(priority, name, cost)
    ensures n.allotted == 0 && n.subneeds == []
  {
    Need(name, priority, cost, 0, [])
  }

  /** The tuple `(prioridad, nombre, costo)` a need puts on the heap. */
  function Tuple(n: Need): Item {
    Item(n.priority, n.name, n.cost)
  }

  /** The tuples of the sub-needs `subs`, in their order. */
  function SubTuples(subs: seq<Need>): (r: seq<Item>)
    ensures |r| == |subs|
    ensures forall i :: 0 <= i < |subs| ==> r[i] == Tuple(subs[i])
  {
    if subs == [] then [] else SubTuples(subs[..|subs| - 1]) + [Tuple(subs[|subs| - 1])]
  }

  /** The tuples a need contributes: its own, then those of its sub-needs. */
  function Block(n: Need): seq<Item> {
    [Tuple(n)] + SubTuples(n.subneeds)
  }

  /**
   * The list `asignar_dinero` builds before `heapify`: for each need in the
   * dictionary's order, its block of tuples.
   */
  function Listed(order: seq<string>, needs: map<string, Need>): seq<Item> {
    if order == [] then []
    else
      var k := order[|order| - 1];
      Listed(order[..|order| - 1], needs) + (if k in needs then Block(needs[k]) else [])
  }

  /** A tuple is on the list exactly when it belongs to a need or to one of its sub-needs. */
  lemma {:induction false} ListedHolds(order: seq<string>, needs: map<string, Need>, x: Item)
    ensures x in Listed(order, needs) <==> exists k :: k in order && k in needs && x in Block(needs[k])
  {
    if order != [] {
      var init := order[..|order| - 1];
      var k := order[|order| - 1];
      ListedHolds(init, needs, x);
      assert order == init + [k];
      var tail := if k in needs then Block(needs[k]) else [];
      assert Listed(order, needs) == Listed(init, needs) + tail;
      if x in Listed(order, needs) && x !in tail {
        var j :| j in init && j in needs && x in Block(needs[j]);
        assert j in order;
      }
      if exists j :: j in order && j in needs && x in Block(needs[j]) {
        var j :| j in order && j in needs && x in Block(needs[j]);
        if j != k {
          assert j in init;
        }
      }
    }
  }

  /** Each further need in `order` adds its tuples to the list. */
  lemma ListedNext(order: seq<string>, needs: map<string, Need>, i: nat, n: Need)
    requires i < |order| && order[i] in needs && n == needs[order[i]]
    ensures Listed(order[..i + 1], needs) == Listed(order[..i], needs) + [Tuple(n)] + SubTuples(n.subneeds)
  {
    assert order[..i + 1][..i] == order[..i];
  }

  /** Needs outside `order` do not contribute to the list. */
  lemma {:induction false} ListedFrame(order: seq<string>, needs: map<string, Need>, k: string, n: Need)
    requires k !in order
    ensures Listed(order, needs[k := n]) == Listed(order, needs)
  {
    if order != [] {
      ListedFrame(order[..|order| - 1], needs, k, n);
    }
  }

  /** Maps that agree on the keys and on the tuples of every need. */
  ghost predicate SameTuples(a: map<string, Need>, b: map<string, Need>) {
    a.Keys == b.Keys && forall k :: k in a ==> Block(a[k]) == Block(b[k])
  }

  /** Needs with the same tuples give the same list. */
  lemma {:induction false} ListedSame(order: seq<string>, a: map<string, Need>, b: map<string, Need>)
    requires SameTuples(a, b)
    ensures Listed(order, a) == Listed(order, b)
  {
    if order != [] {
      ListedSame(order[..|order| - 1], a, b);
    }
  }

  /** Grants leave the list of tuples as it was; `after` is the state the grants give. */
  lemma GrantedListed(order: seq<string>, needs: map<string, Need>, r: seq<(string, int)>, after: map<string, Need>)
    requires after == Granted(needs, r)
    ensures Listed(order, after) == Listed(order, needs)
  {
    GrantedKeepsTuples(needs, r);
    ListedSame(order, needs, after);
  }

  /** The sub-needs `subs` with `asignado` set to `amount` on each one named `name`. */
  function Mark(subs: seq<Need>, name: string, amount: int): (r: seq<Need>)
    ensures |r| == |subs|
  {
    seq(|subs|, i requires 0 <= i < |subs| => if subs[i].name == name then subs[i].(allotted := amount) else subs[i])
  }

  /**
   * Granting `amount` to the name `name`: a need of that name gets it as
   * `asignado`; when there is none, every sub-need of that name, under any
   * need, gets it.
   */
  function Received(needs: map<string, Need>, name: string, amount: int): map<string, Need> {
    if name in needs then needs[name := needs[name].(allotted := amount)]
    else MarkedAll(needs, name, amount)
  }

  /** Every need with its sub-needs named `name` marked with `amount`. */
  function MarkedAll(needs: map<string, Need>, name: string, amount: int): (r: map<string, Need>)
    ensures r.Keys == needs.Keys
  {
    map k | k in needs :: Marked(needs[k], name, amount)
  }

  /** The need `n` with its sub-needs named `name` marked with `amount`. */
  function Marked(n: Need, name: string, amount: int): Need {
    n.(subneeds := Mark(n.subneeds, name, amount))
  }

  /** Marking twice is marking once. */
  lemma MarkedTwice(n: Need, name: string, amount: int)
    ensures Marked(Marked(n, name, amount), name, amount) == Marked(n, name, amount)
  {
    assert Mark(Mark(n.subneeds, name, amount), name, amount) == Mark(n.subneeds, name, amount);
  }

  /** A grant changes only `asignado` fields: the tuples stay as they were. */
  lemma ReceivedKeepsTuples(needs: map<string, Need>, name: string, amount: int)
    ensures SameTuples(needs, Received(needs, name, amount))
    ensures forall k :: k in needs ==> Received(needs, name, amount)[k].name == needs[k].name
  {
    var r := Received(needs, name, amount);
    forall k | k in needs ensures Block(r[k]) == Block(needs[k]) {
      assert SubTuples(r[k].subneeds) == SubTuples(needs[k].subneeds);
    }
  }

  /** The needs after the receipts `r` have been granted, in order. */
  function Granted(needs: map<string, Need>, r: seq<(string, int)>): map<string, Need> {
    if r == [] then needs
    else
      var e := r[|r| - 1];
      Received(Granted(needs, r[..|r| - 1]), e.0, e.1)
  }

  /** One more receipt is one more grant. */
  lemma GrantedLast(needs: map<string, Need>, r: seq<(string, int)>, e: (string, int))
    ensures Granted(needs, r + [e]) == Received(Granted(needs, r), e.0, e.1)
  {
    assert (r + [e])[..|r|] == r;
  }

  /** However much is granted, the tuples stay as they were. */
  lemma {:induction false} GrantedKeepsTuples(needs: map<string, Need>, r: seq<(string, int)>)
    ensures SameTuples(needs, Granted(needs, r))
    ensures forall k :: k in needs ==> Granted(needs, r)[k].name == needs[k].name
  {
    if r != [] {
      var before := Granted(needs, r[..|r| - 1]);
      GrantedKeepsTuples(needs, r[..|r| - 1]);
      ReceivedKeepsTuples(before, r[|r| - 1].0, r[|r| - 1].1);
    }
  }

  /** The allocation `asignar_dinero` makes from `money` for the needs listed in `order`. */
  ghost function Plan(order: seq<string>, needs: map<string, Need>, money: int): Outcome {
    Distribute(Ascending(multiset(Listed(order, needs))), money, {})
  }

  /** The needs are kept by name, each name once in the dictionary's order. */
  ghost predicate Indexed(order: seq<string>, needs: map<string, Need>) {
    && NoDup(order)
    && (forall k :: k in order <==> k in needs)
    && (forall k :: k in needs ==> needs[k].name == k)
  }

  /** The inner loop over one need's sub-needs: marks those named `name` with `amount`. */
  method MarkSubneeds(subs: seq<Need>, name: string, amount: int) returns (r: seq<Need>)
    ensures r == Mark(subs, name, amount)
  {
    r := subs;
    for j := 0 to |subs|
      invariant |r| == |subs|
      invariant forall t :: 0 <= t < |subs| ==> r[t] == if t < j && subs[t].name == name then subs[t].(allotted := amount) else subs[t]
    {
      if r[j].name == name {
        r := r[j := r[j].(allotted := amount)];
      }
    }
  }

  /**
   * The loops over every need, in the dictionary's order, and over its
   * sub-needs, marking those named `name` with `amount`.
   */
  method MarkEverywhere(order: seq<string>, needs: map<string, Need>, name: string, amount: int) returns (r: map<string, Need>)
    requires forall k :: k in needs ==> k in order
    ensures r == MarkedAll(needs, name, amount)
  {
    r := needs;
    ghost var done: set<string> := {};
    for i := 0 to |order|
      invariant r.Keys == needs.Keys
      invariant forall k :: k in r ==> r[k] == if k in done then Marked(needs[k], name, amount) else needs[k]
      invariant forall t :: 0 <= t < i && order[t] in needs ==> order[t] in done
    {
      var k := order[i];
      if k in r {
        MarkedTwice(needs[k], name, amount);
        var subs := MarkSubneeds(r[k].subneeds, name, amount);
        r := r[k := r[k].(subneeds := subs)];
        done := done + {k};
      }
    }
  }

  /** The inner loop over one need's sub-needs: appends their tuples to `list`. */
  method AppendSubTuples(list: seq<Item>, subs: seq<Need>) returns (r: seq<Item>)
    ensures r == list + SubTuples(subs)
  {
    r := list;
    for j := 0 to |subs|
      invariant r == list + SubTuples(subs[..j])
    {
      assert subs[..j + 1][..j] == subs[..j];
      r := r + [Tuple(subs[j])];
    }
    assert subs[..|subs|] == subs;
  }

  /** `Presupuesto`: the money available and the needs, by name. */
  class Budget {
    /** `dinero_disponible` */
    var money: int
    /** `necesidades`, by name */
    var needs: map<string, Need>
    /** The names in the order they entered the dictionary. */
    var order: seq<string>

    ghost predicate Valid()
      reads this
    {
      Indexed(order, needs)
    }

    /** `Presupuesto(dinero_disponible)`: no needs yet. */
    constructor (money: int)
      ensures Valid() && this.money == money && needs == map[] && order == []
    {
      this.money := money;
      needs := map[];
      order := [];
    }

    /**
     * `agregar_necesidad`: a new name enters the dictionary with a fresh need,
     * which puts its tuple on the list; a name already there changes nothing.
     */
    method AddNeed(name: string, priority: int, cost: int)
      requires Valid()
      modifies this`needs, this`order
      ensures Valid()
      ensures needs == if name in old(needs) then old(needs) else old(needs)[name := NewNeed(name, priority, cost)]
      ensures order == if name in old(needs) then old(order) else old(order) + [name]
      ensures Listed(order, needs) ==
        if name in old(needs) then Listed(old(order), old(needs))
        else Listed(old(order), old(needs)) + [Item(priority, name, cost)]
    {
      if name !in needs {
        var n := NewNeed(name, priority, cost);
        AddedNeed(order, needs, n);
        ListedAppend(order, needs, n);
        needs := needs[name := n];
        order := order + [name];
      }
    }

    /**
     * `agregar_subnecesidad`: when the parent need exists, a fresh sub-need is
     * appended to it and its tuple joins the list; otherwise nothing changes.
     */
    method AddSubneed(parent: string, name: string, priority: int, cost: int)
      requires Valid()
      modifies this`needs
      ensures Valid()
      ensures needs == if parent in old(needs) then old(needs)[parent := old(needs)[parent].AddSubneed(NewNeed(name, priority, cost))] else old(needs)
      ensures multiset(Listed(order, needs)) ==
        if parent in old(needs) then multiset(Listed(order, old(needs))) + multiset{Item(priority, name, cost)}
        else multiset(Listed(order, old(needs)))
    {
      if parent in needs {
        var sub := NewNeed(name, priority, cost);
        var n := needs[parent].AddSubneed(sub);
        SubneedIndexed(order, needs, parent, sub);
        SubneedListed(order, needs, parent, sub, n);
        needs := needs[parent := n];
      }
    }

    /**
     * The loop that fills the heap list: for each need, in the dictionary's
     * order, its tuple and then those of its sub-needs.
     */
    method Gather() returns (list: seq<Item>)
      requires forall k :: k in order ==> k in needs
      ensures list == Listed(order, needs)
    {
      list := [];
      for i := 0 to |order|
        invariant list == Listed(order[..i], needs)
      {
        assert order[i] in order;
        var n := needs[order[i]];
        ListedNext(order, needs, i, n);
        list := list + [Tuple(n)];
        list := AppendSubTuples(list, n.subneeds);
      }
      assert order[..|order|] == order;
    }

    /**
     * Granting `amount` to `name` inside `asignar_dinero`: the need of that
     * name if there is one, otherwise every sub-need of that name.
     */
    method Allot(name: string, amount: int)
      requires Valid()
      modifies this`needs
      ensures Valid()
      ensures needs == Received(old(needs), name, amount)
    {
      ReceivedKeepsTuples(needs, name, amount);
      if name in needs {
        needs := needs[name := needs[name].(allotted := amount)];
      } else {
        needs := MarkEverywhere(order, needs, name, amount);
      }
    }

    /**
     * `asignar_dinero`: pops the tuples in ascending order while money is
     * left, grants each name the first time it comes up, and returns the
     * grants made; the money left and the needs' `asignado` fields follow.
     */
    method AllocateMoney() returns (mst: seq<(string, int)>)
      requires Valid()
      modifies this`needs, this`money
      ensures Valid()
      ensures mst == Receipts(Plan(order, old(needs), old(money)).grants)
      ensures money == Plan(order, old(needs), old(money)).left
      ensures needs == Granted(old(needs), mst)
      ensures Listed(order, needs) == Listed(order, old(needs))
    {
      mst := [];
      var visited: set<string> := {};
      var list := Gather();
      var heap := multiset(list);
      ghost var plan := Plan(order, needs, money);
      ghost var done: seq<Grant> := [];
      while heap != multiset{} && money > 0
        invariant Valid()
        invariant Ahead(plan, done, Ascending(heap), money, visited)
        invariant mst == Receipts(done)
        invariant needs == Granted(old(needs), mst)
        decreases |heap|
      {
        heap, visited, done, mst := Turn(old(needs), plan, heap, visited, done, mst);
      }
      Finished(plan, done, Ascending(heap), money, visited);
      GrantedListed(order, old(needs), mst, needs);
    }

    /**
     * One turn of the loop of `asignar_dinero`: pops the smallest tuple and,
     * the first time its name comes up, grants it its cost or, when that is
     * more, all the money left.
     */
    method Turn(ghost before: map<string, Need>, ghost plan: Outcome, heap: multiset<Item>, visited: set<string>,
                ghost done: seq<Grant>, mst: seq<(string, int)>)
      returns (heap': multiset<Item>, visited': set<string>, ghost done': seq<Grant>, mst': seq<(string, int)>)
      requires Valid() && heap != multiset{} && money > 0
      requires Ahead(plan, done, Ascending(heap), money, visited) && mst == Receipts(done) && needs == Granted(before, mst)
      modifies this`needs, this`money
      ensures Valid() && Ahead(plan, done', Ascending(heap'), money, visited')
      ensures mst' == Receipts(done') && needs == Granted(before, mst')
      ensures |heap'| < |heap|
    {
      var x;
      x, heap' := PopLeast(heap);
      if x.name in visited {
        SkippedTurn(plan, done, x, Ascending(heap'), money, visited);
        visited', done', mst' := visited, done, mst;
      } else {
        ghost var money0 := money;
        var amount := if x.cost <= money then x.cost else money;
        Allot(x.name, amount);
        visited' := visited + {x.name};
        mst' := mst + [(x.name, amount)];
        done' := done + [Grant(x, amount)];
        money := money - amount;
        GrantedTurn(plan, done, x, Ascending(heap'), money0, visited, amount, done', money, visited');
        ReceiptsAppend(done, Grant(x, amount));
        GrantedLast(before, mst, (x.name, amount));
      }
    }
  }

  /** A need under a new name joins the dictionary at the end. */
  lemma AddedNeed(order: seq<string>, needs: map<string, Need>, n: Need)
    requires Indexed(order, needs) && n.name !in needs
    ensures Indexed(order + [n.name], needs[n.name := n])
  {
    AppendNoDup(order, n.name);
  }

  /** A need under a name not in `order` puts its tuples at the end of the list. */
  lemma ListedAppend(order: seq<string>, needs: map<string, Need>, n: Need)
    requires n.name !in order
    ensures Listed(order + [n.name], needs[n.name := n]) == Listed(order, needs) + Block(n)
  {
    ListedFrame(order, needs, n.name, n);
    assert (order + [n.name])[..|order|] == order;
  }

  /** A sub-need appended to a need keeps the needs kept by name. */
  lemma SubneedIndexed(order: seq<string>, needs: map<string, Need>, parent: string, sub: Need)
    requires Indexed(order, needs) && parent in needs
    ensures Indexed(order, needs[parent := needs[parent].AddSubneed(sub)])
  {
  }

  /** A sub-need appended to a need adds its tuple to the list. */
  lemma SubneedListed(order: seq<string>, needs: map<string, Need>, parent: string, sub: Need, n: Need)
    requires NoDup(order) && parent in order && parent in needs && n == needs[parent].AddSubneed(sub)
    ensures multiset(Listed(order, needs[parent := n])) == multiset(Listed(order, needs)) + multiset{Tuple(sub)}
  {
    assert n.subneeds[..|n.subneeds| - 1] == needs[parent].subneeds;
    ListedGrows(order, needs, parent, n);
  }

  /** Appending a sub-need to one need adds its tuple to the list. */
  lemma {:induction false} ListedGrows(order: seq<string>, needs: map<string, Need>, parent: string, n: Need)
    requires NoDup(order) && parent in order && parent in needs
    requires Tuple(n) == Tuple(needs[parent]) && |n.subneeds| == |needs[parent].subneeds| + 1
    requires n.subneeds[..|n.subneeds| - 1] == needs[parent].subneeds
    ensures multiset(Listed(order, needs[parent := n])) ==
      multiset(Listed(order, needs)) + multiset{Tuple(n.subneeds[|n.subneeds| - 1])}
  {
    var init := order[..|order| - 1];
    var k := order[|order| - 1];
    assert order == init + [k];
    InitNoDup(order);
    if k == parent {
      ListedFrame(init, needs, parent, n);
      assert Block(n) == Block(needs[parent]) + [Tuple(n.subneeds[|n.subneeds| - 1])];
    } else {
      assert parent in init;
      ListedGrows(init, needs, parent, n);
    }
  }

  /** The amount of the last receipt for `name`, if any. */
  function Lookup(r: seq<(string, int)>, name: string): Option<int> {
    if r == [] then None
    else if r[|r| - 1].0 == name then Some(r[|r| - 1].1)
    else Lookup(r[..|r| - 1], name)
  }

  /**
   * After the receipts `r`, a need holds as `asignado` the last amount
   * granted to its name, and what it held before when there was none.
   */
  lemma {:induction false} GrantedAllots(needs: map<string, Need>, r: seq<(string, int)>, k: string)
    requires k in needs
    ensures k in Granted(needs, r)
    ensures Granted(needs, r)[k].allotted == if Lookup(r, k).Some? then Lookup(r, k).value else needs[k].allotted
    ensures |Granted(needs, r)[k].subneeds| == |needs[k].subneeds|
  {
    if r != [] {
      var e := r[|r| - 1];
      var r' := r[..|r| - 1];
      var before := Granted(needs, r');
      GrantedAllots(needs, r', k);
      GrantedKeepsTuples(needs, r');
      assert Granted(needs, r) == Received(before, e.0, e.1);
      assert Lookup(r, k) == if e.0 == k then Some(e.1) else Lookup(r', k);
      if e.0 in before {
        assert Granted(needs, r)[k] == if k == e.0 then before[k].(allotted := e.1) else before[k];
      } else {
        assert Granted(needs, r)[k] == Marked(before[k], e.0, e.1);
      }
    }
  }

  /**
   * After the receipts `r`, a sub-need whose name is not that of a need holds
   * the last amount granted to its name, and is otherwise as it was; a
   * sub-need named like a need never receives money.
   */
  lemma {:induction false} GrantedSubAllots(needs: map<string, Need>, r: seq<(string, int)>, k: string, j: nat)
    requires k in needs && j < |needs[k].subneeds|
    ensures k in Granted(needs, r) && j < |Granted(needs, r)[k].subneeds|
    ensures Granted(needs, r)[k].subneeds[j] == SubAfter(needs, r, needs[k].subneeds[j])
  {
    GrantedAllots(needs, r, k);
    if r != [] {
      var e := r[|r| - 1];
      var r' := r[..|r| - 1];
      var s := needs[k].subneeds[j];
      var before := Granted(needs, r');
      GrantedSubAllots(needs, r', k, j);
      GrantedKeepsTuples(needs, r');
      var was := before[k].subneeds[j];
      assert was == SubAfter(needs, r', s) && was.name == s.name;
      assert Lookup(r, s.name) == if e.0 == s.name then Some(e.1) else Lookup(r', s.name);
      if e.0 in needs {
        assert Granted(needs, r)[k].subneeds == before[k].subneeds;
        assert SubAfter(needs, r, s) == SubAfter(needs, r', s);
      } else {
        assert Granted(needs, r)[k] == Marked(before[k], e.0, e.1);
        assert Granted(needs, r)[k].subneeds[j] == if s.name == e.0 then was.(allotted := e.1) else was;
      }
    }
  }

  /**
   * A sub-need `s` after the receipts `r`: the last amount granted to its
   * name, unless that name is a need's.
   */
  function SubAfter(needs: map<string, Need>, r: seq<(string, int)>, s: Need): Need {
    if s.name !in needs && Lookup(r, s.name).Some? then s.(allotted := Lookup(r, s.name).value) else s
  }

  /** Conservation: the grants of the plan and the money left add up to the money there was. */
  lemma PlanConserves(order: seq<string>, needs: map<string, Need>, money: int)
    ensures Total(Plan(order, needs, money).grants) + Plan(order, needs, money).left == money
  {
    DistributeConserves(Ascending(multiset(Listed(order, needs))), money, {});
  }

  /**
   * With non-negative money and costs, the money left lies between 0 and the
   * money there was, and each grant between 0 and the cost of its tuple.
   */
  lemma PlanBounds(order: seq<string>, needs: map<string, Need>, money: int)
    requires money >= 0 && forall x :: x in Listed(order, needs) ==> x.cost >= 0
    ensures 0 <= Plan(order, needs, money).left <= money
    ensures forall g :: g in Plan(order, needs, money).grants ==> 0 <= g.amount <= g.item.cost
  {
    var items := Ascending(multiset(Listed(order, needs)));
    AscendingPermutes(multiset(Listed(order, needs)));
    forall i | 0 <= i < |items| ensures items[i].cost >= 0 {
      assert items[i] in multiset(items);
    }
    DistributeBounds(items, money, {});
  }

  /**
   * The grants go, in ascending tuple order, to tuples of the needs and
   * sub-needs, and no name is granted twice.
   */
  lemma PlanGrants(order: seq<string>, needs: map<string, Need>, money: int)
    ensures forall g :: g in Plan(order, needs, money).grants ==>
      exists k :: k in order && k in needs && g.item in Block(needs[k])
    ensures forall i, j :: 0 <= i < j < |Plan(order, needs, money).grants| ==>
      && ItemLeq(Plan(order, needs, money).grants[i].item, Plan(order, needs, money).grants[j].item)
      && Plan(order, needs, money).grants[i].item.name != Plan(order, needs, money).grants[j].item.name
  {
    var h := multiset(Listed(order, needs));
    AscendingPermutes(h);
    AscendingSorted(h);
    DistributeNames(Ascending(h), money, {});
    DistributeOrdered(Ascending(h), money, {});
    forall g | g in Plan(order, needs, money).grants
      ensures exists k :: k in order && k in needs && g.item in Block(needs[k])
    {
      assert g.item in multiset(Ascending(h));
      ListedHolds(order, needs, g.item);
    }
  }

  /** Money is left over only when every need and every sub-need has had a grant under its name. */
  lemma PlanFundsAll(order: seq<string>, needs: map<string, Need>, money: int)
    requires Plan(order, needs, money).left > 0
    ensures forall x :: x in Listed(order, needs) ==>
      exists g :: g in Plan(order, needs, money).grants && g.item.name == x.name
  {
    var h := multiset(Listed(order, needs));
    AscendingPermutes(h);
    forall x | x in Listed(order, needs)
      ensures exists g :: g in Plan(order, needs, money).grants && g.item.name == x.name
    {
      assert x in multiset(Ascending(h));
      DistributeExhausts(Ascending(h), money, {}, x);
    }
  }

  /** Money is left over only when every grant covered the whole cost of its tuple. */
  lemma PlanFullGrants(order: seq<string>, needs: map<string, Need>, money: int)
    requires Plan(order, needs, money).left > 0
    ensures forall g :: g in Plan(order, needs, money).grants ==> g.amount == g.item.cost
  {
    var o := Plan(order, needs, money);
    forall g | g in o.grants ensures g.amount == g.item.cost {
      var i :| 0 <= i < |o.grants| && o.grants[i] == g;
      DistributeGrants(Ascending(multiset(Listed(order, needs))), money, {}, i);
    }
  }
}
