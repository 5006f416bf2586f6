/** The in-memory history: a ring of slots and a cursor at the slot to overwrite next. */
module ClipboardHistory {
  import opened Sequences

  class ClipboardHistory<T> {
    const size: nat
    const slots: array<Option<T>>
    var cursor: nat
    /** Everything ever added, oldest first. */
    ghost var added: seq<T>

    ghost predicate Valid()
      reads this, slots
    {
      slots.Length == size > 0 && cursor < size && FromCursor() == Filled(added, size)
    }

    /** The ring as `Do` walks it, once round from the cursor. */
    function FromCursor(): seq<Option<T>>
      requires cursor <= slots.Length
      reads this, slots
    {
      slots[cursor..] + slots[..cursor]
    }

    constructor (size: nat)
      requires size > 0
      ensures Valid() && added == [] && this.size == size && fresh(slots)
    {
      this.size := size;
      slots := new Option<T>[size](_ => None);
      cursor := 0;
      added := [];
    }

    method Add(item: T)
      requires Valid()
      modifies this, slots
      ensures Valid() && added == old(added) + [item]
    {
      hide Filled;
      ghost var before := FromCursor();
      slots[cursor] := Some(item);
      cursor := if cursor + 1 == size then 0 else cursor + 1;
      FilledSnoc(added, item, size);
      added := added + [item];
      assert FromCursor() == before[1..] + [Some(item)];
    }

    /** The oldest min(n, |window|) items of the window, newest of them first. */
    method GetLast(n: nat) returns (items: seq<T>)
      requires Valid()
      ensures items == OldestReversed(Window(added, size), n)
    {
      var limit := if n > size then size else n;
      ghost var window := Window(added, size);
      ghost var empty := size - |window|;
      items := [];
      var p := cursor;
      for i := 0 to size
        invariant p == if cursor + i < size then cursor + i else cursor + i - size
        invariant items == OldestReversed(window, Clip(i - empty, 0, limit))
      {
        assert slots[p] == FromCursor()[i];
        match slots[p] {
          case None =>
          case Some(item) =>
            if |items| < limit {
              OneMore(window, i - empty, item);
              items := [item] + items;
            }
        }
        p := if p + 1 == size then 0 else p + 1;
      }
    }
  }

  /** One more add pushes the oldest slot out. */
  lemma FilledSnoc<T>(added: seq<T>, item: T, size: nat)
    requires size > 0
    ensures |Filled(added, size)| == size
    ensures Filled(added + [item], size) == Filled(added, size)[1..] + [Some(item)]
  {}

  function Clip(x: int, lo: nat, hi: nat): nat { if x < lo then lo else if x > hi then hi else x }

  /** What a ring of `size` slots holds after adding `added`: empty slots first, then the last adds. */
  function Filled<T>(added: seq<T>, size: nat): seq<Option<T>> {
    seq(size, i requires 0 <= i < size => if |added| - size + i < 0 then None else Some(added[|added| - size + i]))
  }

  /** The last min(size, adds) items, oldest first. */
  function Window<T>(added: seq<T>, size: nat): seq<T> {
    if |added| <= size then added else added[|added| - size..]
  }

  function OldestReversed<T>(window: seq<T>, n: nat): seq<T> {
    Reversed(if n < |window| then window[..n] else window)
  }

  lemma OneMore<T>(window: seq<T>, n: nat, item: T)
    requires n < |window| && window[n] == item
    ensures OldestReversed(window, n + 1) == [item] + OldestReversed(window, n)
  {
    assert window[..n + 1] == window[..n] + [item];
    assert window[..|window|] == window;
    ReversedSnoc(window[..n], item);
  }

  function NewestReversed<T>(window: seq<T>, n: nat): seq<T> {
    Reversed(if n < |window| then window[|window| - n..] else window)
  }

  /** Item by item: `GetLast(n)` counts down from the n-th of the last min(size, adds) items, oldest first. */
  lemma GetLastIs<T>(added: seq<T>, size: nat, n: nat)
    ensures var held := if |added| < size then |added| else size;
            var shown := if n < held then n else held;
            var r := OldestReversed(Window(added, size), n);
            |r| == shown && forall i :: 0 <= i < shown ==> r[i] == added[|added| - held + shown - 1 - i]
  {
    var window := Window(added, size);
    var taken := if n < |window| then window[..n] else window;
    forall i | 0 <= i < |taken| ensures Reversed(taken)[i] == taken[|taken| - 1 - i] { ReversedAt(taken, i); }
  }

  /** Asking for at least as many as there are returns the whole window, newest first. */
  lemma AllOfTheWindow<T>(added: seq<T>, size: nat, n: nat)
    requires n >= |added| || n >= size
    ensures OldestReversed(Window(added, size), n) == Reversed(Window(added, size))
  {}

  /**
   `GetLast(n)` is meant as the newest n. On a window of distinct items it is that exactly when it
   asks for nothing or for the whole window.
   */
  lemma GetLastIsNewestIff<T>(window: seq<T>, n: nat)
    requires Distinct(window)
    ensures OldestReversed(window, n) == NewestReversed(window, n) <==> n == 0 || n >= |window|
  {
    if 0 < n < |window| {
      ReversedAt(window[..n], 0);
      ReversedAt(window[|window| - n..], 0);
    }
  }

  /** Three adds, one asked for: the oldest comes back. */
  lemma GetLastCounterexample()
    ensures OldestReversed([1, 2, 3], 1) == [1] && NewestReversed([1, 2, 3], 1) == [3]
  {
    assert [1, 2, 3][..1] == [1] && [1, 2, 3][2..] == [3];
    ReversedOne(1);
    ReversedOne(3);
  }
}
