/** Runs of queue operations: the links in the store and a plain list stay in step, items come out in the
    order they went in, and queues that share the store do not disturb each other. */
module QueueRuns {
  import opened Basics
  import opened MemPools
  import opened Orders
  import opened IntrusiveQueues

  function IndexOf(items: seq<nat>, x: nat): (k: nat)
    requires x in items
    ensures k < |items| && items[k] == x
  {
    if items[0] == x then 0 else 1 + IndexOf(items[1..], x)
  }

  /** What an operation does to the list: append at the end, take the first, delete anywhere. */
  function ListAfter(items: seq<nat>, op: QueueOp): seq<nat>
    requires op.Remove? ==> op.item in items
  {
    match op
    case Append(x) => items + [x]
    case Pop => if items == [] then [] else items[1..]
    case Remove(x) => Without(items, IndexOf(items, x))
  }

  /** Only live items outside the queue are appended, and only members removed. */
  ghost predicate Allowed(cells: Cells, items: seq<nat>, op: QueueOp) {
    && (op.Append? ==> IsLive(cells, op.item) && op.item !in items)
    && (op.Remove? ==> op.item in items)
  }

  ghost predicate Legal(cells: Cells, items: seq<nat>, ops: seq<QueueOp>)
    decreases |ops|
  {
    ops != [] ==> Allowed(cells, items, ops[0]) && Legal(cells, ListAfter(items, ops[0]), ops[1..])
  }

  ghost function FinalList(cells: Cells, items: seq<nat>, ops: seq<QueueOp>): seq<nat>
    requires Legal(cells, items, ops)
    decreases |ops|
  {
    if ops == [] then items else FinalList(cells, ListAfter(items, ops[0]), ops[1..])
  }

  /** The items appended and the items removed in a run, in order, and how often it pops. */
  function Appended(ops: seq<QueueOp>): seq<nat> {
    if ops == [] then []
    else if ops[0].Append? then [ops[0].item] + Appended(ops[1..])
    else Appended(ops[1..])
  }

  function Removed(ops: seq<QueueOp>): seq<nat> {
    if ops == [] then []
    else if ops[0].Remove? then [ops[0].item] + Removed(ops[1..])
    else Removed(ops[1..])
  }

  function Pops(ops: seq<QueueOp>): nat {
    if ops == [] then 0 else (if ops[0].Pop? then 1 else 0) + Pops(ops[1..])
  }

  /** The items a run of pops handed out, the nulls left out. */
  function Taken(answers: seq<Option<nat>>): seq<nat> {
    if answers == [] then []
    else (if answers[0].Some? then [answers[0].value] else []) + Taken(answers[1..])
  }

  /** One operation on the links. */
  lemma ActKeepsList(cells: Cells, h: Header, items: seq<nat>, op: QueueOp)
    requires ListRep(cells, h, items) && Allowed(cells, items, op)
    ensures MayAct(cells, h, op)
    ensures var (c, g, item) := Act(cells, h, op);
      && ListRep(c, g, ListAfter(items, op))
      && LinksOnly(cells, c, items + (if op.Append? then [op.item] else []))
      && item == if op.Pop? && items != [] then Some(items[0]) else None
  {
    match op
    case Append(x) => AppendKeepsList(cells, h, items, x);
    case Pop =>
      if items != [] {
        RemoveKeepsList(cells, h, items, 0);
        assert Without(items, 0) == items[1..] && items + [] == items;
      }
    case Remove(x) =>
      RemoveKeepsList(cells, h, items, IndexOf(items, x));
      assert items + [] == items;
  }

  lemma LegalAfterLinks(cells: Cells, cells': Cells, touched: seq<nat>, items: seq<nat>, ops: seq<QueueOp>)
    requires LinksOnly(cells, cells', touched)
    ensures Legal(cells', items, ops) <==> Legal(cells, items, ops)
    ensures Legal(cells, items, ops) ==> FinalList(cells', items, ops) == FinalList(cells, items, ops)
    decreases |ops|
  {
    if ops != [] {
      assert Allowed(cells', items, ops[0]) <==> Allowed(cells, items, ops[0]);
      if Allowed(cells, items, ops[0]) {
        LegalAfterLinks(cells, cells', touched, ListAfter(items, ops[0]), ops[1..]);
      }
    }
  }

  lemma ListAfterMembers(items: seq<nat>, op: QueueOp)
    requires op.Remove? ==> op.item in items
    ensures forall x :: x in ListAfter(items, op) ==> x in items || (op.Append? && x == op.item)
  {
  }

  lemma LinksOnlyTwice(a: Cells, b: Cells, c: Cells, s: seq<nat>, t: seq<nat>, all: seq<nat>)
    requires LinksOnly(a, b, s) && LinksOnly(b, c, t)
    requires (forall x :: x in s ==> x in all) && (forall x :: x in t ==> x in all)
    ensures LinksOnly(a, c, all)
  {
  }

  /** The links after a run, and what each pop answered. */
  datatype Outcome = Outcome(cells: Cells, header: Header, answers: seq<Option<nat>>)

  function Answer(op: QueueOp, item: Option<nat>): seq<Option<nat>> {
    if op.Pop? then [item] else []
  }

  /** A whole run on the links.  Afterwards they spell out the list of the run, and nothing but links of
      the items of the run was written. */
  ghost function Run(cells: Cells, h: Header, items: seq<nat>, ops: seq<QueueOp>): (r: Outcome)
    requires ListRep(cells, h, items) && Legal(cells, items, ops)
    ensures ListRep(r.cells, r.header, FinalList(cells, items, ops))
    ensures LinksOnly(cells, r.cells, items + Appended(ops))
    decreases |ops|
  {
    if ops == [] then Outcome(cells, h, [])
    else
      var op, next := ops[0], ListAfter(items, ops[0]);
      var touched := items + (if op.Append? then [op.item] else []);
      ActKeepsList(cells, h, items, op);
      var (c, g, item) := Act(cells, h, op);
      LegalAfterLinks(cells, c, touched, next, ops[1..]);
      var r := Run(c, g, next, ops[1..]);
      ListAfterMembers(items, op);
      LinksOnlyTwice(cells, c, r.cells, touched, next + Appended(ops[1..]), items + Appended(ops));
      r.(answers := Answer(op, item) + r.answers)
  }

  // ---------- The order in which items come out ----------

  /** The first operation of a run, then the others. */
  lemma RunFirst(cells: Cells, h: Header, items: seq<nat>, ops: seq<QueueOp>) returns (c: Cells, g: Header)
    requires ListRep(cells, h, items) && Legal(cells, items, ops) && ops != []
    ensures Allowed(cells, items, ops[0])
    ensures ListRep(c, g, ListAfter(items, ops[0])) && Legal(c, ListAfter(items, ops[0]), ops[1..])
    ensures var r, rest := Run(cells, h, items, ops), Run(c, g, ListAfter(items, ops[0]), ops[1..]);
      && r.cells == rest.cells && r.header == rest.header
      && r.answers == Answer(ops[0], FirstOf(items)) + rest.answers
    ensures FinalList(c, ListAfter(items, ops[0]), ops[1..]) == FinalList(cells, items, ops)
  {
    var op := ops[0];
    ActKeepsList(cells, h, items, op);
    c, g := Act(cells, h, op).0, Act(cells, h, op).1;
    LegalAfterLinks(cells, c, items + (if op.Append? then [op.item] else []), ListAfter(items, op), ops[1..]);
  }

  /** First in, first out: in a run of appends and pops, what the pops hand out, followed by what is left,
      is what was there at first followed by what was appended, all in order. */
  lemma {:induction false} FirstInFirstOut(cells: Cells, h: Header, items: seq<nat>, ops: seq<QueueOp>)
    requires ListRep(cells, h, items) && Legal(cells, items, ops)
    requires forall i :: 0 <= i < |ops| ==> !ops[i].Remove?
    ensures var r := Run(cells, h, items, ops);
      && |r.answers| == Pops(ops)
      && Taken(r.answers) + FinalList(cells, items, ops) == items + Appended(ops)
    decreases |ops|
  {
    hide ListRep, Legal, LinksOnly, Run;
    if ops == [] {
      NoRun(cells, h, items);
    } else {
      var c, g := RunFirst(cells, h, items, ops);
      var next := ListAfter(items, ops[0]);
      FirstInFirstOut(c, g, next, ops[1..]);
      OneMoreOut(items, ops, Run(c, g, next, ops[1..]).answers, FinalList(cells, items, ops));
    }
  }

  lemma OneMoreOut(items: seq<nat>, ops: seq<QueueOp>, answers: seq<Option<nat>>, final: seq<nat>)
    requires ops != [] && !ops[0].Remove?
    requires Taken(answers) + final == ListAfter(items, ops[0]) + Appended(ops[1..])
    ensures var all := Answer(ops[0], FirstOf(items)) + answers;
      && Taken(all) + final == items + Appended(ops)
      && |all| == |answers| + if ops[0].Pop? then 1 else 0
  {
    hide Taken, Appended, Answer;
    var op, later := ops[0], Appended(ops[1..]);
    TakenMore(op, items, answers);
    AnswerLength(op, FirstOf(items), answers);
    AppendedMore(ops);
    if op.Append? {
      Associative(items, [op.item], later);
    } else if items != [] {
      Associative([items[0]], Taken(answers), final);
      Associative([items[0]], items[1..], later);
      assert [items[0]] + items[1..] == items;
    }
  }

  lemma AppendedMore(ops: seq<QueueOp>)
    requires ops != []
    ensures Appended(ops) == if ops[0].Append? then [ops[0].item] + Appended(ops[1..]) else Appended(ops[1..])
  {
  }

  lemma AnswerLength(op: QueueOp, item: Option<nat>, answers: seq<Option<nat>>)
    ensures |Answer(op, item) + answers| == |answers| + if op.Pop? then 1 else 0
  {
  }

  function FirstOf(items: seq<nat>): Option<nat> {
    if items == [] then None else Some(items[0])
  }

  /** What one operation adds to what was handed out. */
  lemma TakenMore(op: QueueOp, items: seq<nat>, answers: seq<Option<nat>>)
    ensures Taken(Answer(op, FirstOf(items)) + answers)
            == if op.Pop? && items != [] then [items[0]] + Taken(answers) else Taken(answers)
  {
    if op.Pop? {
      assert ([FirstOf(items)] + answers)[1..] == answers;
      assert [] + Taken(answers) == Taken(answers);
    } else {
      assert [] + answers == answers;
    }
  }

  lemma Associative<T>(a: seq<T>, b: seq<T>, c: seq<T>)
    ensures a + b + c == a + (b + c)
  {
  }

  lemma NoRun(cells: Cells, h: Header, items: seq<nat>)
    requires ListRep(cells, h, items)
    ensures Legal(cells, items, []) && FinalList(cells, items, []) == items
    ensures Run(cells, h, items, []).answers == []
  {
  }

  /** At no point has the run popped more often than there were items. */
  ghost predicate NeverStarves(items: seq<nat>, ops: seq<QueueOp>) {
    forall j :: 0 <= j <= |ops| ==> Pops(ops[..j]) <= |items| + |Appended(ops[..j])|
  }

  lemma StarvesLater(items: seq<nat>, ops: seq<QueueOp>)
    requires NeverStarves(items, ops) && ops != [] && !ops[0].Remove?
    ensures ops[0].Pop? ==> items != []
    ensures NeverStarves(ListAfter(items, ops[0]), ops[1..])
  {
    var rest := ops[1..];
    forall j | 0 <= j <= |rest| ensures Pops(rest[..j]) <= |ListAfter(items, ops[0])| + |Appended(rest[..j])| {
      assert ops[..j + 1][1..] == rest[..j];
      assert Pops(ops[..j + 1]) <= |items| + |Appended(ops[..j + 1])|;
      StarvesFirst(items, ops);
    }
    StarvesFirst(items, ops);
  }

  lemma StarvesFirst(items: seq<nat>, ops: seq<QueueOp>)
    requires NeverStarves(items, ops) && ops != []
    ensures ops[0].Pop? ==> items != []
  {
    var one := ops[..1];
    assert Pops(one) <= |items| + |Appended(one)|;
    assert one[1..] == [];
  }

  lemma {:induction false} PopsAnswer(cells: Cells, h: Header, items: seq<nat>, ops: seq<QueueOp>)
    requires ListRep(cells, h, items) && Legal(cells, items, ops) && NeverStarves(items, ops)
    requires forall i :: 0 <= i < |ops| ==> !ops[i].Remove?
    ensures forall i :: 0 <= i < |Run(cells, h, items, ops).answers| ==> Run(cells, h, items, ops).answers[i].Some?
    decreases |ops|
  {
    hide ListRep, Legal, LinksOnly, Run, NeverStarves;
    if ops == [] {
      NoRun(cells, h, items);
    } else {
      var c, g := RunFirst(cells, h, items, ops);
      StarvesLater(items, ops);
      PopsAnswer(c, g, ListAfter(items, ops[0]), ops[1..]);
    }
  }

  lemma {:induction false} TakenAll(answers: seq<Option<nat>>)
    requires forall i :: 0 <= i < |answers| ==> answers[i].Some?
    ensures |Taken(answers)| == |answers|
    ensures forall i :: 0 <= i < |answers| ==> Taken(answers)[i] == answers[i].value
  {
    if answers != [] {
      TakenAll(answers[1..]);
    }
  }

  /** When no pop meets an empty queue, the k pops hand out the first k of the items there at first and
      those appended, and the links then spell out all the others. */
  lemma PopsTakeThePrefix(cells: Cells, h: Header, items: seq<nat>, ops: seq<QueueOp>)
    requires ListRep(cells, h, items) && Legal(cells, items, ops) && NeverStarves(items, ops)
    requires forall i :: 0 <= i < |ops| ==> !ops[i].Remove?
    ensures var r, all, k := Run(cells, h, items, ops), items + Appended(ops), Pops(ops);
      && k <= |all| && ListRep(r.cells, r.header, all[k..])
      && |r.answers| == k && forall i :: 0 <= i < k ==> r.answers[i] == Some(all[i])
  {
    hide ListRep, Legal, LinksOnly, Run, NeverStarves;
    var answers, all, final := Run(cells, h, items, ops).answers, items + Appended(ops), FinalList(cells, items, ops);
    FirstInFirstOut(cells, h, items, ops);
    PopsAnswer(cells, h, items, ops);
    TakenAll(answers);
    assert all == Taken(answers) + final;
    assert all[Pops(ops)..] == final;
  }

  // ---------- Removals anywhere ----------

  /** `part` is what stands at `places` in `whole`, in the same order. */
  ghost predicate InOrder(part: seq<nat>, whole: seq<nat>, places: seq<nat>) {
    && |places| == |part|
    && (forall i :: 0 <= i < |places| ==> places[i] < |whole| && whole[places[i]] == part[i])
    && (forall i, j :: 0 <= i < j < |places| ==> places[i] < places[j])
  }

  /** After any run the links spell out survivors in their original order: items there at first and
      items appended since. */
  lemma {:induction false} SurvivorsKeepTheirOrder(cells: Cells, h: Header, items: seq<nat>, ops: seq<QueueOp>)
    returns (left: seq<nat>, places: seq<nat>)
    requires ListRep(cells, h, items) && Legal(cells, items, ops)
    ensures left == FinalList(cells, items, ops)
    ensures var r, all := Run(cells, h, items, ops), items + Appended(ops);
      && ListRep(r.cells, r.header, left)
      && InOrder(left, all, places)
    decreases |ops|
  {
    hide ListRep, Legal, LinksOnly, Run, InOrder, ListAfter;
    left := FinalList(cells, items, ops);
    if ops == [] {
      NoRun(cells, h, items);
      places := AllPlaces(items);
    } else {
      var c, g := RunFirst(cells, h, items, ops);
      var op, next := ops[0], ListAfter(items, ops[0]);
      var _, rest := SurvivorsKeepTheirOrder(c, g, next, ops[1..]);
      places := PlacesBefore(left, items, ops, rest);
    }
  }

  lemma AllPlaces(items: seq<nat>) returns (places: seq<nat>)
    ensures InOrder(items, items + Appended([]), places)
  {
    places := seq(|items|, i => i);
  }

  /** Where the survivors of a run stood before its first operation. */
  lemma PlacesBefore(left: seq<nat>, items: seq<nat>, ops: seq<QueueOp>, rest: seq<nat>) returns (places: seq<nat>)
    requires ops != [] && (ops[0].Remove? ==> ops[0].item in items)
    requires InOrder(left, ListAfter(items, ops[0]) + Appended(ops[1..]), rest)
    ensures InOrder(left, items + Appended(ops), places)
  {
    hide InOrder, Appended;
    AppendedMore(ops);
    var later := Appended(ops[1..]);
    match ops[0]
    case Append(x) =>
      places := rest;
      Associative(items, [x], later);
    case Pop =>
      if items == [] {
        places := rest;
      } else {
        assert [] + (items[1..] + later) == items[1..] + later;
        assert [] + [items[0]] + (items[1..] + later) == items + later;
        places := PlacesAround(left, [], items[0], items[1..] + later, rest);
      }
    case Remove(x) =>
      var k := IndexOf(items, x);
      assert items[..k] + (items[k + 1..] + later) == Without(items, k) + later;
      assert items[..k] + [x] + (items[k + 1..] + later) == items + later;
      places := PlacesAround(left, items[..k], x, items[k + 1..] + later, rest);
  }

  /** With one item more in the middle, what stands behind it moves up by one. */
  lemma PlacesAround(left: seq<nat>, front: seq<nat>, x: nat, back: seq<nat>, rest: seq<nat>) returns (places: seq<nat>)
    requires InOrder(left, front + back, rest)
    ensures InOrder(left, front + [x] + back, places)
  {
    places := seq(|rest|, i requires 0 <= i < |rest| => if rest[i] < |front| then rest[i] else rest[i] + 1);
  }

  function Count(items: seq<nat>, x: nat): nat {
    multiset(items)[x]
  }

  lemma CountConcat(a: seq<nat>, b: seq<nat>, x: nat)
    ensures Count(a + b, x) == Count(a, x) + Count(b, x) && Count([], x) == 0
  {
  }

  /** An operation moves one item in, out or nowhere. */
  lemma OneItemMoves(items: seq<nat>, op: QueueOp, x: nat)
    requires op.Remove? ==> op.item in items
    ensures var before, after := Count(items, x), Count(ListAfter(items, op), x);
      && (op.Append? ==> after == before + Count([op.item], x))
      && (op.Pop? ==> before == after + if items == [] then 0 else Count([items[0]], x))
      && (op.Remove? ==> before == after + Count([op.item], x))
  {
    match op
    case Append(y) =>
    case Pop =>
      if items != [] {
        assert items == [items[0]] + items[1..];
      }
    case Remove(y) =>
      var k := IndexOf(items, y);
      assert items == items[..k] + [y] + items[k + 1..];
  }

  /** Nothing is lost and nothing is invented: whatever was there at first or was appended is still
      there, was handed out or was removed, as often as it went in. */
  lemma {:induction false} EveryItemIsSomewhere(cells: Cells, h: Header, items: seq<nat>, ops: seq<QueueOp>, x: nat)
    requires ListRep(cells, h, items) && Legal(cells, items, ops)
    ensures var answers := Run(cells, h, items, ops).answers;
      && |answers| == Pops(ops)
      && Count(items, x) + Count(Appended(ops), x)
         == Count(FinalList(cells, items, ops), x) + Count(Taken(answers), x) + Count(Removed(ops), x)
    decreases |ops|
  {
    hide ListRep, Legal, LinksOnly, Run, ListAfter, Count;
    if ops == [] {
      NoRun(cells, h, items);
      CountConcat([], [], x);
    } else {
      var c, g := RunFirst(cells, h, items, ops);
      var next := ListAfter(items, ops[0]);
      EveryItemIsSomewhere(c, g, next, ops[1..], x);
      OneItemMoves(items, ops[0], x);
      OneMoreSomewhere(items, ops, Run(c, g, next, ops[1..]).answers, x);
    }
  }

  /** What the first operation of a run adds to the three tallies. */
  lemma OneMoreSomewhere(items: seq<nat>, ops: seq<QueueOp>, answers: seq<Option<nat>>, x: nat)
    requires ops != []
    ensures var op, all := ops[0], Answer(ops[0], FirstOf(items)) + answers;
      && Count(Appended(ops), x) == Count(Appended(ops[1..]), x) + (if op.Append? then Count([op.item], x) else 0)
      && Count(Removed(ops), x) == Count(Removed(ops[1..]), x) + (if op.Remove? then Count([op.item], x) else 0)
      && Count(Taken(all), x)
         == Count(Taken(answers), x) + (if op.Pop? && items != [] then Count([items[0]], x) else 0)
      && |all| == |answers| + if op.Pop? then 1 else 0
  {
    hide Count, Taken, Appended, Answer;
    TakenMore(ops[0], items, answers);
    AnswerLength(ops[0], FirstOf(items), answers);
    AppendedMore(ops);
    match ops[0]
    case Append(y) => CountConcat([y], Appended(ops[1..]), x);
    case Pop =>
      if items != [] {
        CountConcat([items[0]], Taken(answers), x);
      }
    case Remove(y) => CountConcat([y], Removed(ops[1..]), x);
  }

  // ---------- One call at a time ----------

  /** Runs grow one call at a time.  A call may follow a run exactly when it appends a live item not in
      the queue, pops, or removes a member; the links change as the call does, and the list gains the item
      at its end, loses its first item, which is the answer, or loses the item removed. */
  lemma {:induction false} RunExtends(cells: Cells, h: Header, items: seq<nat>, ops: seq<QueueOp>, op: QueueOp)
    requires ListRep(cells, h, items)
    ensures Legal(cells, items, ops + [op]) <==>
      && Legal(cells, items, ops)
      && var list := FinalList(cells, items, ops);
         && (op.Append? ==> IsLive(cells, op.item) && op.item !in list)
         && (op.Remove? ==> op.item in list)
    ensures Legal(cells, items, ops + [op]) ==>
      var r, r' := Run(cells, h, items, ops), Run(cells, h, items, ops + [op]);
      && MayAct(r.cells, r.header, op)
      && var (c, g, item) := Act(r.cells, r.header, op);
         r' == Outcome(c, g, r.answers + Answer(op, item))
    ensures Legal(cells, items, ops + [op]) ==>
      var list, list' := FinalList(cells, items, ops), FinalList(cells, items, ops + [op]);
      && (op.Append? ==> list' == list + [op.item])
      && (op.Pop? ==> list' == if list == [] then [] else list[1..])
      && (op.Remove? ==> exists k: nat :: k < |list| && list[k] == op.item && list' == Without(list, k))
    decreases |ops|
  {
    hide LinksOnly, ListRep, Act, MayAct;
    if ops == [] {
      assert ops + [op] == [op] && [op][1..] == [];
      if Allowed(cells, items, op) {
        ActKeepsList(cells, h, items, op);
        var (c, g, item) := Act(cells, h, op);
        NoRun(c, g, ListAfter(items, op));
        assert Answer(op, item) + [] == [] + Answer(op, item);
        assert op.Remove? ==> ListAfter(items, op) == Without(items, IndexOf(items, op.item));
      }
    } else if Allowed(cells, items, ops[0]) {
      var first, next := ops[0], ListAfter(items, ops[0]);
      assert (ops + [op])[1..] == ops[1..] + [op];
      ActKeepsList(cells, h, items, first);
      var (c, g, item) := Act(cells, h, first);
      var touched := items + (if first.Append? then [first.item] else []);
      LegalAfterLinks(cells, c, touched, next, ops[1..]);
      LegalAfterLinks(cells, c, touched, next, ops[1..] + [op]);
      LinksOnlyKeepsLive(cells, c, touched);
      RunExtends(c, g, next, ops[1..], op);
      if Legal(cells, items, ops + [op]) {
        var r := Run(c, g, next, ops[1..]);
        Associative(Answer(first, item), r.answers, Answer(op, Act(r.cells, r.header, op).2));
      }
    }
  }

  lemma LinksOnlyKeepsLive(cells: Cells, cells': Cells, touched: seq<nat>)
    requires LinksOnly(cells, cells', touched)
    ensures forall x: nat :: IsLive(cells', x) <==> IsLive(cells, x)
  {
  }

  /** A queue none of whose items take part in the run is untouched by it. */
  lemma OtherQueueUntouched(cells: Cells, cells': Cells, touched: seq<nat>, h: Header, items: seq<nat>)
    requires LinksOnly(cells, cells', touched) && ListRep(cells, h, items)
    requires forall x :: x in items ==> x !in touched
    ensures ListRep(cells', h, items)
  {
    forall i | 0 <= i < |items| ensures items[i] !in touched {
      assert items[i] in items;
    }
    ListFrame(cells, cells', h, items);
  }
}
