/** The deque of src/mlib/mqueue.c over the cells of MList, and its refinement of a plain sequence. */
module MQueues {
  import opened Options
  import opened MLists

  class MQueue<T> {
    var head: MList?<T>
    var tail: MList?<T>
    var length: nat
    ghost var cells: seq<MList<T>>
    ghost var Repr: set<object>

    ghost predicate Valid()
      reads this, Repr
      ensures Valid() ==> this in Repr
    {
      && this in Repr && (forall i :: 0 <= i < |cells| ==> cells[i] in Repr)
      && Chain(cells)
      && head == (if cells == [] then null else cells[0])
      && tail == (if cells == [] then null else cells[|cells| - 1])
      && length == |cells|
    }

    ghost function Contents(): (s: seq<T>)
      requires Valid()
      reads this, Repr
      ensures |s| == |cells|
    {
      Data(cells)
    }

    constructor ()
      ensures Valid() && fresh(Repr) && Contents() == []
    {
      head, tail, length := null, null, 0;
      cells, Repr := [], {this};
    }

    /** The three ways the source has to see that a queue is empty agree. */
    lemma EmptyMeansEmpty()
      requires Valid()
      ensures head == null <==> tail == null
      ensures head == null <==> length == 0
      ensures head == null <==> Contents() == []
    {
    }

    predicate IsEmpty()
      requires Valid()
      reads this, Repr
      ensures IsEmpty() <==> Contents() == []
    {
      head == null
    }

    method PushHead(data: T)
      requires Valid()
      modifies Repr
      ensures Valid() && Contents() == [data] + old(Contents())
      ensures fresh(Repr - old(Repr))
    {
      head, cells := Prepend(head, data, cells, 0);
      Repr := Repr + {head};
      if tail == null {
        tail := head;
      }
      length := length + 1;
    }

    method PushTail(data: T)
      requires Valid()
      modifies Repr
      ensures Valid() && Contents() == old(Contents()) + [data]
      ensures fresh(Repr - old(Repr))
    {
      tail, cells := Append(tail, data, cells, if cells == [] then 0 else |cells| - 1);
      ghost var k := if |cells| == 1 then 0 else |cells| - 2;
      assert tail == cells[k] && tail.next == if k == |cells| - 1 then null else cells[k + 1];
      Repr := Repr + {cells[|cells| - 1]};
      if tail.next != null {
        tail := tail.next;
      } else {
        head := tail;
      }
      length := length + 1;
    }

    method PopHead() returns (data: Option<T>)
      requires Valid()
      modifies Repr
      ensures Valid()
      ensures old(Contents()) == match data case None => Contents() case Some(x) => [x] + Contents()
      ensures data == None <==> old(Contents()) == []
      ensures Repr == old(Repr)
    {
      if head != null {
        var node := head;
        data := Some(node.data);
        head := node.next;
        if head != null {
          head.prev := null;
        } else {
          tail := null;
        }
        length := length - 1;
        cells := cells[1..];
      } else {
        data := None;
      }
    }

    method PopTail() returns (data: Option<T>)
      requires Valid()
      modifies Repr
      ensures Valid()
      ensures old(Contents()) == match data case None => Contents() case Some(x) => Contents() + [x]
      ensures data == None <==> old(Contents()) == []
      ensures Repr == old(Repr)
    {
      if tail != null {
        var node := tail;
        data := Some(node.data);
        tail := node.prev;
        if tail != null {
          tail.next := null;
        } else {
          head := null;
        }
        length := length - 1;
        cells := cells[..|cells| - 1];
      } else {
        data := None;
      }
    }
  }

  // ---- any interleaving of operations ----

  datatype Op<T> = PushHead(x: T) | PushTail(x: T) | PopHead | PopTail

  /** The deque as a value: the contents after one operation and what the operation returns. */
  function Step<T>(s: seq<T>, op: Op<T>): (seq<T>, Option<T>) {
    match op
    case PushHead(x) => ([x] + s, None)
    case PushTail(x) => (s + [x], None)
    case PopHead => if s == [] then (s, None) else (s[1..], Some(s[0]))
    case PopTail => if s == [] then (s, None) else (s[..|s| - 1], Some(s[|s| - 1]))
  }

  function Script<T>(s: seq<T>, ops: seq<Op<T>>): (r: (seq<T>, seq<Option<T>>))
    ensures |r.1| == |ops|
  {
    if ops == [] then (s, [])
    else
      var front := Script(s, ops[..|ops| - 1]);
      var last := Step(front.0, ops[|ops| - 1]);
      (last.0, front.1 + [last.1])
  }

  method Perform<T>(q: MQueue<T>, op: Op<T>) returns (answer: Option<T>)
    requires q.Valid()
    modifies q.Repr
    ensures q.Valid() && fresh(q.Repr - old(q.Repr))
    ensures (q.Contents(), answer) == Step(old(q.Contents()), op)
  {
    answer := None;
    match op {
      case PushHead(x) => q.PushHead(x);
      case PushTail(x) => q.PushTail(x);
      case PopHead => answer := q.PopHead();
      case PopTail => answer := q.PopTail();
    }
  }

  /** The pointer structure answers every script of operations as the sequence does. */
  method RunScript<T>(ops: seq<Op<T>>) returns (answers: seq<Option<T>>)
    ensures answers == Script([], ops).1
  {
    var q := new MQueue<T>();
    answers := [];
    for i := 0 to |ops|
      invariant q.Valid() && fresh(q.Repr)
      invariant (q.Contents(), answers) == Script([], ops[..i])
    {
      assert ops[..i + 1][..i] == ops[..i];
      var answer := Perform(q, ops[i]);
      answers := answers + [answer];
    }
    assert ops[..|ops|] == ops;
  }

  /** A run of pushes at the tail comes out of the head in the order it went in. */
  lemma {:induction false} FirstInFirstOut<T>(s: seq<T>, xs: seq<T>)
    ensures Script(s, seq(|xs|, i requires 0 <= i < |xs| => PushTail(xs[i]))).0 == s + xs
    ensures Script(s + xs, seq(|s|, i => PopHead)) == (xs, seq(|s|, i requires 0 <= i < |s| => Some(s[i])))
  {
    Pushed(s, xs);
    Popped(s, xs);
  }

  lemma {:induction false} Pushed<T>(s: seq<T>, xs: seq<T>)
    ensures Script(s, seq(|xs|, i requires 0 <= i < |xs| => PushTail(xs[i]))).0 == s + xs
  {
    var ops := seq(|xs|, i requires 0 <= i < |xs| => PushTail(xs[i]));
    if xs != [] {
      var front := xs[..|xs| - 1];
      Pushed(s, front);
      assert ops[..|xs| - 1] == seq(|front|, i requires 0 <= i < |front| => PushTail(front[i]));
      assert s + xs == s + front + [xs[|xs| - 1]];
    }
  }

  lemma {:induction false} Popped<T>(s: seq<T>, xs: seq<T>)
    ensures Script(s + xs, seq(|s|, i => PopHead)) == (xs, seq(|s|, i requires 0 <= i < |s| => Some(s[i])))
  {
    var ops: seq<Op<T>> := seq(|s|, i => PopHead);
    if s == [] {
      assert s + xs == xs && ops == [];
      assert seq(|s|, i requires 0 <= i < |s| => Some(s[i])) == [];
    } else {
      var front, last := s[..|s| - 1], s[|s| - 1];
      Popped(front, [last] + xs);
      assert front + ([last] + xs) == s + xs;
      assert ops[..|s| - 1] == seq(|front|, i => PopHead);
      assert ([last] + xs)[1..] == xs;
      assert seq(|s|, i requires 0 <= i < |s| => Some(s[i]))
          == seq(|front|, i requires 0 <= i < |front| => Some(front[i])) + [Some(last)];
    }
  }
}
