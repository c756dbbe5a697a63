/** How the PLIC picks the request to serve: two-way choices combined in a tree. */
module Tournament {

  datatype Request = Request(priority: nat, id: nat, valid: bool)

  /** One node of the tree: the left request wins ties. */
  function Pick(a: Request, b: Request): Request {
    if !b.valid || (a.valid && b.priority <= a.priority) then a else b
  }

  /** The same choice made by looking at the requests one after another. */
  function Scan(xs: seq<Request>): Request
    requires |xs| > 0
  {
    if |xs| == 1 then xs[0] else Pick(Scan(xs[..|xs| - 1]), xs[|xs| - 1])
  }

  /** One level of the balanced tree: neighbours are paired, an odd one out moves up unchanged. */
  function Level(xs: seq<Request>): (ys: seq<Request>)
    ensures |ys| == (|xs| + 1) / 2
  {
    if |xs| < 2 then xs else [Pick(xs[0], xs[1])] + Level(xs[2..])
  }

  function Reduce(xs: seq<Request>): Request
    requires |xs| > 0
    decreases |xs|
  {
    if |xs| == 1 then xs[0] else Reduce(Level(xs))
  }

  datatype Tree = Leaf(r: Request) | Node(left: Tree, right: Tree)
  {
    function Leaves(): (xs: seq<Request>)
      ensures |xs| > 0
    {
      match this case Leaf(r) => [r] case Node(l, r) => l.Leaves() + r.Leaves()
    }

    function Winner(): Request {
      match this case Leaf(r) => r case Node(l, r) => Pick(l.Winner(), r.Winner())
    }
  }

  lemma PickAssociative(a: Request, b: Request, c: Request)
    ensures Pick(Pick(a, b), c) == Pick(a, Pick(b, c))
  {}

  lemma {:induction false} ScanConcat(xs: seq<Request>, ys: seq<Request>)
    requires |xs| > 0 && |ys| > 0
    ensures Scan(xs + ys) == Pick(Scan(xs), Scan(ys))
    decreases |ys|
  {
    var n := |ys| - 1;
    assert (xs + ys)[..|xs| + n] == xs + ys[..n];
    if n == 0 {
      assert xs + ys[..n] == xs;
    } else {
      ScanConcat(xs, ys[..n]);
      PickAssociative(Scan(xs), Scan(ys[..n]), ys[n]);
    }
  }

  /** Any tree shape gives the winner of the linear scan over its leaves. */
  lemma {:induction false} TreeShapeIrrelevant(t: Tree)
    ensures t.Winner() == Scan(t.Leaves())
  {
    match t
    case Leaf(r) =>
    case Node(l, r) =>
      TreeShapeIrrelevant(l);
      TreeShapeIrrelevant(r);
      ScanConcat(l.Leaves(), r.Leaves());
  }

  lemma {:induction false} LevelKeepsWinner(xs: seq<Request>)
    requires |xs| > 0
    ensures Scan(Level(xs)) == Scan(xs)
    decreases |xs|
  {
    if |xs| == 2 {
      assert Level(xs) == [Pick(xs[0], xs[1])];
      assert xs[..1] == [xs[0]];
    } else if |xs| > 2 {
      LevelKeepsWinner(xs[2..]);
      ScanConcat([Pick(xs[0], xs[1])], Level(xs[2..]));
      assert xs[..2][..1] == [xs[0]] && Scan(xs[..2]) == Pick(xs[0], xs[1]);
      ScanConcat(xs[..2], xs[2..]);
      assert xs == xs[..2] + xs[2..];
    }
  }

  lemma {:induction false} ReduceIsScan(xs: seq<Request>)
    requires |xs| > 0
    ensures Reduce(xs) == Scan(xs)
    decreases |xs|
  {
    if |xs| > 1 {
      ReduceIsScan(Level(xs));
      LevelKeepsWinner(xs);
    }
  }

  /** w is the valid request of greatest priority, the first among equals. */
  ghost predicate Wins(xs: seq<Request>, k: nat) {
    && k < |xs| && xs[k].valid
    && (forall j :: 0 <= j < |xs| && xs[j].valid ==> xs[j].priority <= xs[k].priority)
    && (forall j :: 0 <= j < k && xs[j].valid ==> xs[j].priority < xs[k].priority)
  }

  lemma {:induction false} ScanFindsWinner(xs: seq<Request>) returns (k: nat)
    requires |xs| > 0 && xs[0].valid
    ensures Wins(xs, k) && Scan(xs) == xs[k]
    decreases |xs|
  {
    k := 0;
    if |xs| > 1 {
      var n := |xs| - 1;
      var j := ScanFindsWinner(xs[..n]);
      assert forall i :: 0 <= i < n ==> xs[..n][i] == xs[i];
      k := if Scan(xs) == xs[j] && (!xs[n].valid || xs[n].priority <= xs[j].priority) then j else n;
    }
  }

  /** The tree's winner, for any number of requests. */
  lemma ReduceFindsWinner(xs: seq<Request>) returns (k: nat)
    requires |xs| > 0 && xs[0].valid
    ensures Wins(xs, k) && Reduce(xs) == xs[k]
  {
    ReduceIsScan(xs);
    k := ScanFindsWinner(xs);
  }
}
