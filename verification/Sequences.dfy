/** Options and sequence helpers shared by the other modules. */
module Sequences {

  datatype Option<+T> = None | Some(value: T)

  function Reversed<T>(s: seq<T>): (r: seq<T>)
    ensures |r| == |s|
  {
    if s == [] then [] else Reversed(s[1..]) + [s[0]]
  }

  lemma {:induction false} ReversedAt<T>(s: seq<T>, i: nat)
    requires i < |s|
    ensures Reversed(s)[i] == s[|s| - 1 - i]
  {
    if i < |s| - 1 { ReversedAt(s[1..], i); }
  }

  lemma {:induction false} ReversedConcat<T>(a: seq<T>, b: seq<T>)
    ensures Reversed(a + b) == Reversed(b) + Reversed(a)
  {
    if a == [] {
      EmptyPrefix(b);
      assert Reversed(b) + [] == Reversed(b);
    } else {
      var s := a + b;
      ReversedConcat(a[1..], b);
      assert s[0] == a[0] && s[1..] == a[1..] + b;
      Associative(Reversed(b), Reversed(a[1..]), [a[0]]);
    }
  }

  lemma ReversedOne<T>(x: T)
    ensures Reversed([x]) == [x]
  {
    assert [x][1..] == [] && [] + [x] == [x];
  }

  lemma ReversedSnoc<T>(s: seq<T>, x: T)
    ensures Reversed(s + [x]) == [x] + Reversed(s)
  {
    ReversedConcat(s, [x]);
    ReversedOne(x);
  }

  lemma {:induction false} ReversedTwice<T>(s: seq<T>)
    ensures Reversed(Reversed(s)) == s
  {
    if s != [] {
      ReversedTwice(s[1..]);
      ReversedSnoc(Reversed(s[1..]), s[0]);
      assert s == [s[0]] + s[1..];
    }
  }

  /** The first `limit` elements; all of them when `limit` is not positive. */
  function Limited<T>(limit: int, s: seq<T>): seq<T> {
    if limit <= 0 || |s| <= limit then s else s[..limit]
  }

  /** The last `limit` elements; all of them when `limit` is not positive. */
  function LastLimited<T>(limit: int, s: seq<T>): seq<T> {
    if limit <= 0 || |s| <= limit then s else s[|s| - limit..]
  }

  lemma NoLimit<T>(limit: int, s: seq<T>)
    requires limit <= 0
    ensures Limited(limit, s) == s && LastLimited(limit, s) == s
  {}

  lemma LimitedReversed<T>(limit: int, s: seq<T>)
    ensures Limited(limit, Reversed(s)) == Reversed(LastLimited(limit, s))
  {
    if 0 < limit < |s| {
      var lo, hi := s[..|s| - limit], s[|s| - limit..];
      assert s == lo + hi;
      ReversedConcat(lo, hi);
      assert (Reversed(hi) + Reversed(lo))[..limit] == Reversed(hi);
    }
  }

  predicate Distinct<T(==)>(s: seq<T>) { forall i, j :: 0 <= i < j < |s| ==> s[i] != s[j] }

  // ---------- Filter and map in one pass ----------

  /** The values `f` yields on the elements of `s`, in order; elements where it yields none are skipped. */
  function Chosen<A, B>(f: A -> Option<B>, s: seq<A>): (r: seq<B>)
    ensures |r| <= |s|
  {
    if s == [] then [] else OneChosen(f(s[0])) + Chosen(f, s[1..])
  }

  function OneChosen<B>(b: Option<B>): seq<B> { if b.Some? then [b.value] else [] }

  lemma EmptyPrefix<T>(s: seq<T>)
    ensures [] + s == s
  {}

  lemma SplitFirst<T>(u: seq<T>, r: seq<T>)
    requires r != []
    ensures u + r == u + [r[0]] + r[1..]
  {}

  lemma LastOfConcat<T>(a: seq<T>, b: seq<T>)
    requires b != []
    ensures (a + b)[|a + b| - 1] == b[|b| - 1]
  {}

  lemma Associative<T>(a: seq<T>, b: seq<T>, c: seq<T>)
    ensures a + (b + c) == (a + b) + c
  {}

  lemma {:induction false} ChosenConcat<A, B>(f: A -> Option<B>, a: seq<A>, b: seq<A>)
    ensures Chosen(f, a + b) == Chosen(f, a) + Chosen(f, b)
  {
    if a == [] {
      assert a + b == b;
    } else {
      ChosenConcat(f, a[1..], b);
      var s := a + b;
      assert s[0] == a[0] && s[1..] == a[1..] + b;
      Associative(OneChosen(f(a[0])), Chosen(f, a[1..]), Chosen(f, b));
    }
  }

  lemma ChosenPrefix<A, B>(f: A -> Option<B>, s: seq<A>, k: nat)
    requires 0 < k <= |s|
    ensures Chosen(f, s[..k]) == OneChosen(f(s[0])) + Chosen(f, s[1..][..k - 1])
  {
    var p := s[..k];
    assert p[0] == s[0] && p[1..] == s[1..][..k - 1];
  }

  lemma ChosenOne<A, B>(f: A -> Option<B>, a: A)
    ensures Chosen(f, [a]) == OneChosen(f(a))
  {
    assert Chosen(f, [a][1..]) == [];
  }

  lemma ChosenSnoc<A, B>(f: A -> Option<B>, s: seq<A>, n: nat)
    requires n < |s|
    ensures Chosen(f, s[..n + 1]) == Chosen(f, s[..n]) + OneChosen(f(s[n]))
  {
    assert s[..n + 1] == s[..n] + [s[n]];
    ChosenConcat(f, s[..n], [s[n]]);
    ChosenOne(f, s[n]);
  }

  lemma {:induction false} ChosenReversed<A, B>(f: A -> Option<B>, s: seq<A>)
    ensures Chosen(f, Reversed(s)) == Reversed(Chosen(f, s))
  {
    if s != [] {
      var head := OneChosen(f(s[0]));
      ChosenReversed(f, s[1..]);
      ChosenConcat(f, Reversed(s[1..]), [s[0]]);
      ChosenOne(f, s[0]);
      ReversedConcat(head, Chosen(f, s[1..]));
      if head != [] { ReversedOne(head[0]); }
    }
  }

  lemma {:induction false} NothingChosen<A, B>(f: A -> Option<B>, s: seq<A>)
    requires forall a :: a in s ==> f(a) == None
    ensures Chosen(f, s) == []
  {
    if s != [] { NothingChosen(f, s[1..]); }
  }

  lemma {:induction false} NothingChosenIff<A, B>(f: A -> Option<B>, s: seq<A>)
    ensures Chosen(f, s) == [] <==> forall a :: a in s ==> f(a) == None
  {
    if s != [] {
      NothingChosenIff(f, s[1..]);
      assert s == [s[0]] + s[1..];
    }
  }

  lemma {:induction false} ChosenAlike<A, B>(f: A -> Option<B>, g: A -> Option<B>, s: seq<A>)
    requires forall a :: a in s ==> f(a) == g(a)
    ensures Chosen(f, s) == Chosen(g, s)
  {
    if s != [] { ChosenAlike(f, g, s[1..]); }
  }

  // ---------- Selecting from a selection ----------

  /** `f` on the elements that satisfy `p`, nothing on the others. */
  function Restricted<A, B>(f: A -> Option<B>, p: A -> bool): A -> Option<B> { a => if p(a) then f(a) else None }

  /** No value is yielded twice. */
  ghost predicate Injective<A, B(!new)>(f: A -> Option<B>, s: seq<A>) {
    forall i, j :: 0 <= i < j < |s| && f(s[i]).Some? ==> f(s[i]) != f(s[j])
  }

  lemma {:induction false} NotChosen<A, B>(f: A -> Option<B>, s: seq<A>, b: B)
    requires forall i :: 0 <= i < |s| ==> f(s[i]) != Some(b)
    ensures b !in Chosen(f, s)
  {
    if s != [] { NotChosen(f, s[1..], b); }
  }

  lemma FirstOnlyOnce<A, B(!new)>(f: A -> Option<B>, p: A -> bool, s: seq<A>)
    requires s != [] && Injective(f, s) && f(s[0]).Some?
    ensures f(s[0]).value !in Chosen(Restricted(f, p), s[1..])
  {
    forall i | 0 <= i < |s[1..]| ensures Restricted(f, p)(s[1..][i]) != Some(f(s[0]).value) {
      assert s[1..][i] == s[i + 1];
    }
    NotChosen(Restricted(f, p), s[1..], f(s[0]).value);
  }

  lemma InjectiveRest<A, B(!new)>(f: A -> Option<B>, s: seq<A>)
    requires s != [] && Injective(f, s)
    ensures Injective(f, s[1..])
  {
    var rest := s[1..];
    forall i, j | 0 <= i < j < |rest| && f(rest[i]).Some? ensures f(rest[i]) != f(rest[j]) {
      assert rest[i] == s[i + 1] && rest[j] == s[j + 1];
    }
  }

  /** Two selections from distinct values are equal exactly when they agree on every element that yields one. */
  lemma {:induction false} SameSelectionIff<A, B(!new)>(f: A -> Option<B>, p: A -> bool, q: A -> bool, s: seq<A>)
    requires Injective(f, s)
    ensures Chosen(Restricted(f, p), s) == Chosen(Restricted(f, q), s) <==>
            forall a :: a in s && f(a).Some? ==> (p(a) <==> q(a))
  {
    hide Injective;
    if s != [] {
      var rest := s[1..];
      var x, y := Chosen(Restricted(f, p), rest), Chosen(Restricted(f, q), rest);
      InjectiveRest(f, s);
      SameSelectionIff(f, p, q, rest);
      assert s == [s[0]] + rest;
      if f(s[0]).Some? {
        FirstOnlyOnce(f, p, s);
        FirstOnlyOnce(f, q, s);
        ConsSame(f(s[0]).value, p(s[0]), q(s[0]), x, y);
      } else {
        EmptyPrefix(x);
        EmptyPrefix(y);
      }
    }
  }

  lemma ConsSame<B>(b: B, p: bool, q: bool, x: seq<B>, y: seq<B>)
    requires b !in x && b !in y
    ensures (if p then [b] else []) + x == (if q then [b] else []) + y <==> (p <==> q) && x == y
  {
    var l, r := (if p then [b] else []) + x, (if q then [b] else []) + y;
    if p { assert l[0] == b && l[1..] == x; } else { assert l == x; }
    if q { assert r[0] == b && r[1..] == y; } else { assert r == y; }
  }

  /** Where the elements that satisfy `p` come first, selecting by `p` is cutting there; likewise at the end. */
  lemma SelectPrefix<A, B>(f: A -> Option<B>, p: A -> bool, s: seq<A>, n: nat)
    requires n <= |s| && (forall i :: 0 <= i < n ==> p(s[i])) && (forall i :: n <= i < |s| ==> !p(s[i]))
    ensures Chosen(Restricted(f, p), s) == Chosen(f, s[..n])
  {
    SplitChosen(f, p, s, n);
    ChosenAlike(Restricted(f, p), f, s[..n]);
    NothingChosen(Restricted(f, p), s[n..]);
  }

  lemma SelectSuffix<A, B>(f: A -> Option<B>, p: A -> bool, s: seq<A>, n: nat)
    requires n <= |s| && (forall i :: 0 <= i < n ==> !p(s[i])) && (forall i :: n <= i < |s| ==> p(s[i]))
    ensures Chosen(Restricted(f, p), s) == Chosen(f, s[n..])
  {
    SplitChosen(f, p, s, n);
    NothingChosen(Restricted(f, p), s[..n]);
    ChosenAlike(Restricted(f, p), f, s[n..]);
  }

  lemma SplitChosen<A, B>(f: A -> Option<B>, p: A -> bool, s: seq<A>, n: nat)
    requires n <= |s|
    ensures Chosen(Restricted(f, p), s) == Chosen(Restricted(f, p), s[..n]) + Chosen(Restricted(f, p), s[n..])
  {
    assert s == s[..n] + s[n..];
    ChosenConcat(Restricted(f, p), s[..n], s[n..]);
  }
}
