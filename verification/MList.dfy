/** The doubly linked list of src/mlib/mlist.c, on the heap.
  *
  * A C list is a pointer to one cell of a chain.  Here the methods also take, as a ghost argument,
  * the sequence `cells` of all the cells of that chain, so that "the list is well linked" and
  * "what the list holds" are properties of a sequence.
  */
module MLists {
  import opened Options

  class MList<T> {
    var data: T
    var prev: MList?<T>
    var next: MList?<T>

    constructor (data: T)
      ensures this.data == data && prev == null && next == null
    {
      this.data := data;
      prev, next := null, null;
    }
  }

  /** `cells` are distinct and `prev` and `next` are mutually inverse along them. */
  ghost predicate Chain<T>(cells: seq<MList<T>>)
    reads cells`prev, cells`next
  {
    && (forall i, j :: 0 <= i < j < |cells| ==> cells[i] != cells[j])
    && (forall i {:trigger cells[i].prev} :: 0 <= i < |cells| ==>
          cells[i].prev == if i == 0 then null else cells[i - 1])
    && (forall i {:trigger cells[i].next} :: 0 <= i < |cells| ==>
          cells[i].next == if i == |cells| - 1 then null else cells[i + 1])
  }

  /** What the chain holds, front to back. */
  ghost function Data<T>(cells: seq<MList<T>>): (s: seq<T>)
    reads cells
    ensures |s| == |cells|
    ensures forall i :: 0 <= i < |cells| ==> s[i] == cells[i].data
  {
    seq(|cells|, i requires 0 <= i < |cells| reads cells => cells[i].data)
  }

  /** `list` points at position `k` of the chain; the NULL pointer is the position past the end. */
  ghost predicate At<T>(list: MList?<T>, cells: seq<MList<T>>, k: int)
  {
    0 <= k <= |cells| && list == if k < |cells| then cells[k] else null
  }

  // ---- specification functions on sequences ----

  /** Where `mlist_insert` puts an item: at `p`, or at the end when `p` is negative or past the end. */
  function InsertedAt<A>(s: seq<A>, x: A, p: int): seq<A> {
    if 0 <= p <= |s| then s[..p] + [x] + s[p..] else s + [x]
  }

  lemma InsertedAtMeaning<A>(s: seq<A>, x: A, p: int)
    ensures var r, k := InsertedAt(s, x, p), if p < 0 || p > |s| then |s| else p;
            |r| == |s| + 1 && r[k] == x && r[..k] == s[..k] && r[k + 1..] == s[k..]
  {
  }

  /** The position of the first `x` at or after `k`, or |s| when there is none. */
  function FirstFrom<A>(s: seq<A>, p: A -> bool, k: nat): (i: nat)
    requires k <= |s|
    ensures k <= i <= |s|
    ensures forall j :: k <= j < i ==> !p(s[j])
    ensures i < |s| ==> p(s[i])
    decreases |s| - k
  {
    if k == |s| || p(s[k]) then k else FirstFrom(s, p, k + 1)
  }

  function DroppedAt<A>(s: seq<A>, i: nat): seq<A> {
    if i < |s| then s[..i] + s[i + 1..] else s
  }

  lemma DroppedAtMeaning<A>(s: seq<A>, i: nat)
    ensures if i < |s| then |DroppedAt(s, i)| == |s| - 1 && InsertedAt(DroppedAt(s, i), s[i], i) == s
            else DroppedAt(s, i) == s
  {
  }

  /** The items other than `x`, in order. */
  function Without<A(==)>(s: seq<A>, x: A): seq<A> {
    if s == [] then []
    else Without(s[..|s| - 1], x) + (if s[|s| - 1] == x then [] else [s[|s| - 1]])
  }

  /** `Without` keeps exactly the items that differ from `x`, each as often as before ... */
  lemma {:induction false} WithoutKeepsTheRest<A>(s: seq<A>, x: A, y: A)
    ensures multiset(Without(s, x))[y] == if y == x then 0 else multiset(s)[y]
  {
    if s != [] {
      var front, last := s[..|s| - 1], s[|s| - 1];
      WithoutKeepsTheRest(front, x, y);
      assert s == front + [last];
      assert multiset(s)[y] == multiset(front)[y] + (if y == last then 1 else 0);
      assert multiset(Without(s, x)) == multiset(Without(front, x)) + multiset(if last == x then [] else [last]);
    }
  }

  /** ... and in the order they had: it distributes over concatenation. */
  lemma {:induction false} WithoutConcat<A>(s: seq<A>, t: seq<A>, x: A)
    ensures Without(s + t, x) == Without(s, x) + Without(t, x)
  {
    if t == [] {
      assert s + t == s;
    } else {
      assert (s + t)[..|s + t| - 1] == s + t[..|t| - 1];
      WithoutConcat(s, t[..|t| - 1], x);
    }
  }

  /** Without any `x` left, `Without` changes nothing; so removing all twice is removing all once. */
  lemma {:induction false} WithoutIdempotent<A>(s: seq<A>, x: A)
    ensures Without(Without(s, x), x) == Without(s, x)
  {
    if s != [] {
      var last := s[|s| - 1];
      WithoutIdempotent(s[..|s| - 1], x);
      WithoutConcat(Without(s[..|s| - 1], x), if last == x then [] else [last], x);
    }
  }

  // ---- walking ----

  method Last<T>(list: MList?<T>, ghost cells: seq<MList<T>>, ghost k: nat) returns (last: MList?<T>)
    requires Chain(cells) && At(list, cells, k)
    ensures last == if list == null then null else cells[|cells| - 1]
  {
    last := list;
    ghost var i := k;
    if last != null {
      while last.next != null
        invariant last != null && i < |cells| && At(last, cells, i)
        decreases |cells| - i
      {
        last := last.next;
        i := i + 1;
      }
    }
  }

  method Get<T>(list: MList?<T>, n: nat, ghost cells: seq<MList<T>>) returns (r: MList?<T>)
    requires Chain(cells) && At(list, cells, 0)
    ensures r == if n < |cells| then cells[n] else null
  {
    r := list;
    var m := n;
    ghost var i := 0;
    while m > 0 && r != null
      invariant At(r, cells, i) && i + m == n
    {
      m := m - 1;
      r := r.next;
      i := i + 1;
    }
  }

  method GetData<T>(list: MList?<T>, n: nat, ghost cells: seq<MList<T>>) returns (data: Option<T>)
    requires Chain(cells) && At(list, cells, 0)
    ensures data == if n < |cells| then Some(Data(cells)[n]) else None
  {
    var r := Get(list, n, cells);
    data := if r != null then Some(r.data) else None;
  }

  /** `mlist_find_custom`: the first cell whose data the comparison accepts.  `mlist_find` compares for equality. */
  method FindCustom<T>(list: MList?<T>, p: T -> bool, ghost cells: seq<MList<T>>) returns (r: MList?<T>)
    requires Chain(cells) && At(list, cells, 0)
    ensures At(r, cells, FirstFrom(Data(cells), p, 0))
  {
    r := list;
    ghost var i := 0;
    while r != null
      invariant At(r, cells, i)
      invariant FirstFrom(Data(cells), p, 0) == FirstFrom(Data(cells), p, i)
      decreases |cells| - i
    {
      if p(r.data) {
        return;
      }
      r := r.next;
      i := i + 1;
    }
  }

  method Find<T(==)>(list: MList?<T>, data: T, ghost cells: seq<MList<T>>) returns (r: MList?<T>)
    requires Chain(cells) && At(list, cells, 0)
    ensures At(r, cells, FirstFrom(Data(cells), d => d == data, 0))
  {
    r := list;
    ghost var i := 0;
    ghost var isData := d => d == data;
    while r != null
      invariant At(r, cells, i)
      invariant forall j :: 0 <= j < i ==> cells[j].data != data
      decreases |cells| - i
    {
      if r.data == data {
        break;
      }
      r := r.next;
      i := i + 1;
    }
  }

  method Length<T>(list: MList?<T>, ghost cells: seq<MList<T>>) returns (n: nat)
    requires Chain(cells) && At(list, cells, 0)
    ensures n == |cells|
  {
    n := 0;
    var r := list;
    while r != null
      invariant At(r, cells, n)
      decreases |cells| - n
    {
      n := n + 1;
      r := r.next;
    }
  }

  // ---- adding ----

  /** A chain whose cells around position `k` have been relinked to take in `cell`. */
  ghost predicate LinkedIn<T>(cells: seq<MList<T>>, cell: MList<T>, k: nat)
    reads cells, cell
  {
    && k <= |cells|
    && (forall i, j :: 0 <= i < j < |cells| ==> cells[i] != cells[j])
    && (forall i :: 0 <= i < |cells| ==> cells[i] != cell)
    && cell.prev == (if k == 0 then null else cells[k - 1])
    && cell.next == (if k == |cells| then null else cells[k])
    && (forall i {:trigger cells[i].prev} :: 0 <= i < |cells| ==>
          cells[i].prev == if i == k then cell else if i == 0 then null else cells[i - 1])
    && (forall i {:trigger cells[i].next} :: 0 <= i < |cells| ==>
          cells[i].next == if i == k - 1 then cell else if i == |cells| - 1 then null else cells[i + 1])
  }

  lemma ChainInserted<T>(cells: seq<MList<T>>, cell: MList<T>, k: nat)
    requires LinkedIn(cells, cell, k)
    ensures Chain(InsertedAt(cells, cell, k))
  {
    var s := InsertedAt(cells, cell, k);
    forall i | 0 <= i < |s|
      ensures s[i].prev == if i == 0 then null else s[i - 1]
      ensures s[i].next == if i == |s| - 1 then null else s[i + 1]
    {
      assert s[i] == if i < k then cells[i] else if i == k then cell else cells[i - 1];
    }
  }

  /** Linking a cell into the chain inserts its item into what the chain holds. */
  lemma DataInserted<T>(cells: seq<MList<T>>, cell: MList<T>, k: nat)
    requires k <= |cells|
    ensures Data(InsertedAt(cells, cell, k)) == InsertedAt(Data(cells), cell.data, k)
  {
  }

  /** `list` may be any cell of the chain, as when `mqueue_push_tail` passes its tail cell. */
  method Append<T>(list: MList?<T>, data: T, ghost cells: seq<MList<T>>, ghost k: nat)
    returns (r: MList<T>, ghost cells': seq<MList<T>>)
    requires Chain(cells) && At(list, cells, k) && (list == null ==> cells == [])
    modifies cells`next
    ensures Chain(cells') && |cells'| == |cells| + 1 && cells' == cells + [cells'[|cells|]]
    ensures fresh(cells'[|cells|])
    ensures r == if list == null then cells'[0] else list
    ensures Data(cells') == old(Data(cells)) + [data]
  {
    var cell := new MList(data);
    cells' := cells + [cell];
    if list != null {
      var last := Last(list, cells, k);
      last.next := cell;
      cell.prev := last;
      r := list;
    } else {
      r := cell;
    }
  }

  /** Prepending at an inner cell links the new cell in front of it. */
  method Prepend<T>(list: MList?<T>, data: T, ghost cells: seq<MList<T>>, ghost k: nat)
    returns (r: MList<T>, ghost cells': seq<MList<T>>)
    requires Chain(cells) && At(list, cells, k) && (list == null ==> cells == [])
    modifies cells
    ensures Chain(cells') && cells' == InsertedAt(cells, r, k) && fresh(r)
    ensures Data(cells') == InsertedAt(old(Data(cells)), data, k)
  {
    r := new MList(data);
    r.next := list;
    if list != null {
      r.prev := list.prev;
      if list.prev != null {
        list.prev.next := r;
      }
      list.prev := r;
    }
    cells' := InsertedAt(cells, r, k);
    assert Data(cells) == old(Data(cells));
    ChainInserted(cells, r, k);
    DataInserted(cells, r, k);
  }

  method Insert<T>(list: MList?<T>, data: T, position: int, ghost cells: seq<MList<T>>)
    returns (r: MList<T>, ghost cells': seq<MList<T>>)
    requires Chain(cells) && At(list, cells, 0)
    modifies cells
    ensures Chain(cells') && At(r, cells', 0)
    ensures Data(cells') == InsertedAt(old(Data(cells)), data, position)
    ensures exists c :: fresh(c) && cells' == InsertedAt(cells, c, position)
  {
    if position < 0 {
      r, cells' := Append(list, data, cells, 0);
      assert cells' == InsertedAt(cells, cells'[|cells|], position);
    } else if position == 0 {
      r, cells' := Prepend(list, data, cells, 0);
    } else {
      var at := Get(list, position, cells);
      if at == null {
        r, cells' := Append(list, data, cells, 0);
        assert cells' == InsertedAt(cells, cells'[|cells|], position);
      } else {
        var cell;
        cell, cells' := LinkBefore(at, data, cells, position);
        r := list;
      }
    }
  }

  /** The tail of `mlist_insert`: links a new cell in front of `at`, which has a predecessor. */
  method LinkBefore<T>(at: MList<T>, data: T, ghost cells: seq<MList<T>>, ghost k: nat)
    returns (cell: MList<T>, ghost cells': seq<MList<T>>)
    requires Chain(cells) && 0 < k < |cells| && cells[k] == at
    modifies cells
    ensures Chain(cells') && cells' == InsertedAt(cells, cell, k) && fresh(cell)
    ensures Data(cells') == InsertedAt(old(Data(cells)), data, k)
  {
    cell := new MList(data);
    cell.prev := at.prev;
    at.prev.next := cell;
    cell.next := at;
    at.prev := cell;
    cells' := InsertedAt(cells, cell, k);
    assert Data(cells) == old(Data(cells));
    ChainInserted(cells, cell, k);
    DataInserted(cells, cell, k);
  }

  // ---- removing ----

  /** A chain whose cells around position `k` have been relinked to leave `cells[k]` out. */
  ghost predicate LinkedOut<T>(cells: seq<MList<T>>, k: nat)
    reads cells
  {
    && k < |cells|
    && (forall i, j :: 0 <= i < j < |cells| ==> cells[i] != cells[j])
    && (forall i {:trigger cells[i].prev} :: 0 <= i < |cells| && i != k ==>
          cells[i].prev == if i == 0 || (i == 1 && k == 0) then null else if i == k + 1 then cells[k - 1]
            else cells[i - 1])
    && (forall i {:trigger cells[i].next} :: 0 <= i < |cells| && i != k ==>
          cells[i].next == if i == |cells| - 1 || (i == |cells| - 2 && k == |cells| - 1) then null
                           else if i == k - 1 then cells[k + 1] else cells[i + 1])
  }

  lemma ChainDropped<T>(cells: seq<MList<T>>, k: nat)
    requires LinkedOut(cells, k)
    ensures Chain(DroppedAt(cells, k))
  {
    var s := DroppedAt(cells, k);
    forall i | 0 <= i < |s|
      ensures s[i].prev == if i == 0 then null else s[i - 1]
      ensures s[i].next == if i == |s| - 1 then null else s[i + 1]
    {
      assert s[i] == if i < k then cells[i] else cells[i + 1];
    }
  }

  /** The neighbours of `link` are joined; `corrupt` reports the source's "corrupted double-linked list". */
  method Unlink<T>(link: MList<T>, ghost cells: seq<MList<T>>, ghost k: nat) returns (corrupt: bool)
    requires Chain(cells) && k < |cells| && cells[k] == link
    modifies cells
    ensures !corrupt && LinkedOut(cells, k) && Data(cells) == old(Data(cells))
    ensures link.next == old(link.next)
  {
    corrupt := false;
    if link.prev != null {
      if link.prev.next == link {
        link.prev.next := link.next;
      } else {
        corrupt := true;
      }
    }
    if link.next != null {
      if link.next.prev == link {
        link.next.prev := link.prev;
      } else {
        corrupt := true;
      }
    }
  }

  /** `mlist_remove_link`: takes one cell out of the chain and clears its links. */
  method RemoveLink<T>(list: MList?<T>, link: MList?<T>, ghost cells: seq<MList<T>>, ghost k: nat)
    returns (r: MList?<T>, corrupt: bool, ghost cells': seq<MList<T>>)
    requires Chain(cells) && At(list, cells, 0) && At(link, cells, k)
    modifies cells
    ensures !corrupt
    ensures Chain(cells') && At(r, cells', 0) && cells' == DroppedAt(cells, k)
    ensures Data(cells) == old(Data(cells))
    ensures link != null ==> link.prev == null && link.next == null
  {
    if link == null {
      return list, false, cells;
    }
    corrupt := Unlink(link, cells, k);
    r := list;
    if link == list {
      r := list.next;
    }
    link.next, link.prev := null, null;
    cells' := DroppedAt(cells, k);
    ChainDropped(cells, k);
  }

  /** Dropping a cell from the chain drops its item from what the chain holds. */
  lemma DataDropped<T>(cells: seq<MList<T>>, k: nat)
    ensures Data(DroppedAt(cells, k)) == DroppedAt(Data(cells), k)
  {
  }

  /** Removes the first cell holding `data`, if any. */
  method Remove<T(==)>(list: MList?<T>, data: T, ghost cells: seq<MList<T>>)
    returns (r: MList?<T>, ghost cells': seq<MList<T>>)
    requires Chain(cells) && At(list, cells, 0)
    modifies cells
    ensures Chain(cells') && At(r, cells', 0)
    ensures var i := FirstFrom(old(Data(cells)), d => d == data, 0);
            cells' == DroppedAt(cells, i) && Data(cells') == DroppedAt(old(Data(cells)), i)
  {
    r, cells' := list, cells;
    var tmp := list;
    ghost var i := 0;
    while tmp != null
      invariant At(tmp, cells, i) && r == list && cells' == cells
      invariant forall j :: 0 <= j < i ==> cells[j].data != data
      invariant forall c :: c in cells ==> c.data == old(c.data) && c.prev == old(c.prev) && c.next == old(c.next)
      decreases |cells| - i
    {
      if tmp.data != data {
        tmp := tmp.next;
        i := i + 1;
      } else {
        var corrupt;
        r, corrupt, cells' := RemoveLink(list, tmp, cells, i);
        DataDropped(cells, i);
        return;
      }
    }
  }

  /** The relinking step of `mlist_remove_all`: takes `tmp` out of the chain, whose head is `list`. */
  method Relink<T>(list: MList?<T>, tmp: MList<T>, ghost cells: seq<MList<T>>, ghost k: nat)
    returns (r: MList?<T>, next: MList?<T>)
    requires Chain(cells) && At(list, cells, 0) && k < |cells| && cells[k] == tmp
    modifies cells
    ensures LinkedOut(cells, k) && Data(cells) == old(Data(cells))
    ensures next == old(tmp.next) && r == if k == 0 then next else list
  {
    r, next := list, tmp.next;
    if tmp.prev != null {
      tmp.prev.next := next;
    } else {
      r := next;
    }
    if next != null {
      next.prev := tmp.prev;
    }
  }

  method Bypass<T>(list: MList?<T>, tmp: MList<T>, ghost cells: seq<MList<T>>, ghost k: nat, ghost frame: set<object>)
    returns (r: MList?<T>, next: MList?<T>, ghost cells': seq<MList<T>>)
    requires Chain(cells) && At(list, cells, 0) && k < |cells| && cells[k] == tmp
    requires forall i :: 0 <= i < |cells| ==> cells[i] in frame
    modifies frame
    ensures Chain(cells') && At(r, cells', 0) && At(next, cells', k)
    ensures forall i :: 0 <= i < |cells'| ==> cells'[i] in frame
    ensures Data(cells') == DroppedAt(old(Data(cells)), k)
  {
    r, next := Relink(list, tmp, cells, k);
    cells' := DroppedAt(cells, k);
    ChainDropped(cells, k);
    DataDropped(cells, k);
    DroppedStaysIn(cells, k, frame);
  }

  lemma DroppedStaysIn<T>(cells: seq<MList<T>>, k: nat, frame: set<object>)
    requires forall i :: 0 <= i < |cells| ==> cells[i] in frame
    ensures forall i :: 0 <= i < |DroppedAt(cells, k)| ==> DroppedAt(cells, k)[i] in frame
  {
  }

  /** `mlist_remove_all` after looking at `i` items: `k` were kept and the rest is as it was. */
  ghost predicate Swept<A>(was: seq<A>, now: seq<A>, i: int, k: int, x: A) {
    0 <= i <= |was| && 0 <= k <= |now| && now[k..] == was[i..] && now[..k] == Without(was[..i], x)
  }

  lemma SweptStep<A>(was: seq<A>, now: seq<A>, i: int, k: int, x: A)
    requires Swept(was, now, i, k, x) && k < |now|
    ensures i < |was| && now[k] == was[i]
    ensures if now[k] == x then Swept(was, DroppedAt(now, k), i + 1, k, x) else Swept(was, now, i + 1, k + 1, x)
  {
    assert |now[k..]| == |was[i..]| && now[k..][0] == was[i..][0];
    assert was[..i + 1][..i] == was[..i];
    assert now[k + 1..] == now[k..][1..] && was[i + 1..] == was[i..][1..];
    if now[k] == x {
      assert DroppedAt(now, k)[k..] == now[k + 1..] && DroppedAt(now, k)[..k] == now[..k];
    } else {
      assert now[..k + 1] == now[..k] + [now[k]];
    }
  }

  /** Removes every cell holding `data`; the others stay, in order. */
  method RemoveAll<T(==)>(list: MList?<T>, data: T, ghost cells: seq<MList<T>>)
    returns (r: MList?<T>, ghost cells': seq<MList<T>>)
    requires Chain(cells) && At(list, cells, 0)
    modifies cells
    ensures Chain(cells') && At(r, cells', 0)
    ensures forall j :: 0 <= j < |cells'| ==> cells'[j] in cells
    ensures Data(cells') == Without(old(Data(cells)), data)
  {
    r, cells' := list, cells;
    var tmp := list;
    ghost var frame: set<object> := set c | c in cells;
    ghost var was := Data(cells);
    ghost var i, k := 0, 0;
    while tmp != null
      invariant Chain(cells') && At(r, cells', 0) && At(tmp, cells', k)
      invariant forall j :: 0 <= j < |cells'| ==> cells'[j] in frame
      invariant Swept(was, Data(cells'), i, k, data)
      decreases |was| - i
    {
      SweptStep(was, Data(cells'), i, k, data);
      if tmp.data != data {
        tmp := tmp.next;
        k := k + 1;
      } else {
        r, tmp, cells' := Bypass(r, tmp, cells', k, frame);
      }
      i := i + 1;
    }
    assert was[..i] == was && Data(cells')[..k] == Data(cells');
  }
}
