/** Splitting a sequence at a separator and joining pieces with one: QByteArray::split and
    the join loop of handleOscCommand for ';', QStringList::join for the line feed of
    selectedText. */
module Seqs {

  predicate Free<T(==)>(s: seq<T>, sep: T) {
    forall i :: 0 <= i < |s| ==> s[i] != sep
  }

  /** The pieces between separators; always at least one, as QByteArray::split returns. */
  function SplitOn<T(==)>(s: seq<T>, sep: T): (r: seq<seq<T>>)
    ensures |r| >= 1
    ensures forall i :: 0 <= i < |r| ==> Free(r[i], sep)
  {
    if s == [] then [[]]
    else
      var rest := SplitOn(s[1..], sep);
      if s[0] == sep then [[]] + rest else [[s[0]] + rest[0]] + rest[1..]
  }

  /** The pieces with one separator between each two. */
  function JoinWith<T>(ps: seq<seq<T>>, sep: T): seq<T>
  {
    if ps == [] then []
    else if |ps| == 1 then ps[0]
    else ps[0] + [sep] + JoinWith(ps[1..], sep)
  }

  lemma {:induction false} SplitFree<T>(a: seq<T>, sep: T)
    requires Free(a, sep)
    ensures SplitOn(a, sep) == [a]
  {
    if a != [] {
      SplitFree(a[1..], sep);
      assert [a[0]] + a[1..] == a;
    }
  }

  /** Splitting at a separator that follows a free prefix yields the prefix first. */
  lemma {:induction false} SplitAtSep<T>(a: seq<T>, sep: T, b: seq<T>)
    requires Free(a, sep)
    ensures SplitOn(a + [sep] + b, sep) == [a] + SplitOn(b, sep)
  {
    if a == [] {
      assert a + [sep] + b == [sep] + b;
      assert ([sep] + b)[1..] == b;
    } else {
      var s := a + [sep] + b;
      assert s[0] == a[0];
      assert s[1..] == a[1..] + [sep] + b;
      SplitAtSep(a[1..], sep, b);
      assert [a[0]] + a[1..] == a;
    }
  }

  /** Joining free pieces and splitting the result gives the pieces back. */
  lemma {:induction false} SplitJoin<T>(ps: seq<seq<T>>, sep: T)
    requires ps != [] && forall i :: 0 <= i < |ps| ==> Free(ps[i], sep)
    ensures SplitOn(JoinWith(ps, sep), sep) == ps
  {
    if |ps| == 1 {
      SplitFree(ps[0], sep);
    } else {
      SplitAtSep(ps[0], sep, JoinWith(ps[1..], sep));
      SplitJoin(ps[1..], sep);
      assert [ps[0]] + ps[1..] == ps;
    }
  }

  /** Splitting and joining back gives the original sequence. */
  lemma {:induction false} JoinSplit<T>(s: seq<T>, sep: T)
    ensures JoinWith(SplitOn(s, sep), sep) == s
  {
    if s != [] {
      var rest := SplitOn(s[1..], sep);
      JoinSplit(s[1..], sep);
      if s[0] == sep {
        assert [[]] + rest == [[]] + rest;
        assert JoinWith([[]] + rest, sep) == [] + [sep] + JoinWith(rest, sep);
        assert s == [sep] + s[1..];
      } else {
        JoinCons(s[0], rest, sep);
        assert s == [s[0]] + s[1..];
      }
    }
  }

  /** Prefixing the first piece prefixes the join. */
  lemma JoinCons<T>(x: T, ps: seq<seq<T>>, sep: T)
    requires ps != []
    ensures JoinWith([[x] + ps[0]] + ps[1..], sep) == [x] + JoinWith(ps, sep)
  {
    var qs := [[x] + ps[0]] + ps[1..];
    assert qs[0] == [x] + ps[0] && qs[1..] == ps[1..];
  }

  /** Everything after the first separator: the pieces after the first, joined again. */
  lemma {:induction false} AfterFirstSep<T>(a: seq<T>, sep: T, b: seq<T>)
    requires Free(a, sep)
    ensures |SplitOn(a + [sep] + b, sep)| >= 2
    ensures SplitOn(a + [sep] + b, sep)[0] == a
    ensures JoinWith(SplitOn(a + [sep] + b, sep)[1..], sep) == b
  {
    SplitAtSep(a, sep, b);
    JoinSplit(b, sep);
    assert ([a] + SplitOn(b, sep))[1..] == SplitOn(b, sep);
  }

  /** One more piece on the right: the join loop of handleOscCommand. */
  lemma {:induction false} JoinSnoc<T>(ps: seq<seq<T>>, q: seq<T>, sep: T)
    requires ps != []
    ensures JoinWith(ps + [q], sep) == JoinWith(ps, sep) + [sep] + q
    decreases |ps|
  {
    var qs := ps + [q];
    if |ps| == 1 {
      assert qs[1..] == [q];
    } else {
      assert qs[0] == ps[0] && qs[1..] == ps[1..] + [q];
      JoinSnoc(ps[1..], q, sep);
    }
  }
}
