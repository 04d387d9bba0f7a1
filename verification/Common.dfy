/** Small datatypes and text helpers shared by every component. */
module Common {

  datatype Option<+T> = None | Some(value: T)

  datatype Result<+T, +E> = Ok(value: T) | Err(error: E)

  type byte = b: int | 0 <= b < 256

  const SPACE: byte := 32

  /** A counter in a map; nothing counted yet is zero. */
  function CountIn<K>(counts: map<K, nat>, k: K): nat {
    if k in counts then counts[k] else 0
  }

  /** The pieces of `s` between occurrences of `sep`; always at least one piece. */
  function SplitOn<T(==)>(s: seq<T>, sep: T): (pieces: seq<seq<T>>)
    ensures |pieces| > 0
    ensures forall i :: 0 <= i < |pieces| ==> sep !in pieces[i]
  {
    if s == [] then [[]]
    else
      var rest := SplitOn(s[1..], sep);
      if s[0] == sep then [[]] + rest else [[s[0]] + rest[0]] + rest[1..]
  }

  /** Puts one `sep` between consecutive pieces. */
  function JoinWith<T>(pieces: seq<seq<T>>, sep: T): seq<T>
  {
    if pieces == [] then []
    else if |pieces| == 1 then pieces[0]
    else pieces[0] + [sep] + JoinWith(pieces[1..], sep)
  }

  lemma {:induction false} SplitOfPiece<T>(a: seq<T>, sep: T, rest: seq<T>)
    requires sep !in a
    ensures SplitOn(a + [sep] + rest, sep) == [a] + SplitOn(rest, sep)
    ensures SplitOn(a, sep) == [a]
  {
    if a == [] {
      assert a + [sep] + rest == [sep] + rest;
    } else {
      SplitOfPiece(a[1..], sep, rest);
      assert (a + [sep] + rest)[1..] == a[1..] + [sep] + rest;
      assert a == [a[0]] + a[1..];
    }
  }

  /** Splitting undoes joining when no piece contains the separator. */
  lemma {:induction false} SplitOfJoin<T>(pieces: seq<seq<T>>, sep: T)
    requires pieces != []
    requires forall i :: 0 <= i < |pieces| ==> sep !in pieces[i]
    ensures SplitOn(JoinWith(pieces, sep), sep) == pieces
  {
    if |pieces| == 1 {
      SplitOfPiece(pieces[0], sep, []);
    } else {
      SplitOfPiece(pieces[0], sep, JoinWith(pieces[1..], sep));
      SplitOfJoin(pieces[1..], sep);
    }
  }

  /** Joining undoes splitting, for every sequence. */
  lemma {:induction false} JoinOfSplit<T>(s: seq<T>, sep: T)
    ensures JoinWith(SplitOn(s, sep), sep) == s
  {
    if s != [] {
      JoinOfSplit(s[1..], sep);
      var rest := SplitOn(s[1..], sep);
      if s[0] == sep {
        assert ([[]] + rest)[1..] == rest;
      } else {
        var pieces := [[s[0]] + rest[0]] + rest[1..];
        assert pieces[1..] == rest[1..];
        assert JoinWith(pieces, sep) == [s[0]] + JoinWith(rest, sep);
      }
    }
  }

  function WithoutFinal<T(==)>(s: seq<T>, c: T): seq<T>
  {
    if s != [] && s[|s| - 1] == c then s[..|s| - 1] else s
  }

  /** Drops the final piece if it is empty: what follows a final line feed is no line. */
  function WithoutEmptyLast<T(==)>(pieces: seq<seq<T>>): seq<seq<T>>
    requires pieces != []
  {
    if pieces[|pieces| - 1] == [] then pieces[..|pieces| - 1] else pieces
  }

  /** Drops one CR at the end of every piece that a line feed ended. */
  function WithoutCarriageReturns<T(==)>(pieces: seq<seq<T>>, cr: T): (r: seq<seq<T>>)
    requires pieces != []
    ensures |r| == |pieces|
  {
    if |pieces| == 1 then pieces
    else [WithoutFinal(pieces[0], cr)] + WithoutCarriageReturns(pieces[1..], cr)
  }

  /** `str::lines` over any alphabet. */
  function Lines<T(==)>(text: seq<T>, lf: T, cr: T): (lines: seq<seq<T>>)
  {
    WithoutEmptyLast(WithoutCarriageReturns(SplitOn(text, lf), cr))
  }

  // ----- counting by index

  /** Where `x` stands in `s`; `tag` says whose places they are. */
  ghost function Places<I, T>(tag: I, s: seq<T>, x: T): set<(I, nat)> {
    set j: nat | j < |s| && s[j] == x :: (tag, j)
  }

  /** A sequence holds an element as often as it has places for it. */
  lemma {:induction false} CountIsPlaces<I, T>(tag: I, s: seq<T>, x: T)
    ensures multiset(s)[x] == |Places(tag, s, x)|
  {
    if s == [] {
      assert Places(tag, s, x) == {};
    } else {
      var n := |s| - 1;
      CountIsPlaces(tag, s[..n], x);
      assert s == s[..n] + [s[n]];
      var last := if s[n] == x then {(tag, n as nat)} else {};
      assert Places(tag, s, x) == Places(tag, s[..n], x) + last;
    }
  }

  ghost function Shifted(s: set<nat>): set<nat> {
    set i: nat | i in s :: i + 1
  }

  lemma ShiftedHas(s: set<nat>, k: nat)
    ensures k in Shifted(s) <==> k > 0 && k - 1 in s
  {
    if k > 0 && k - 1 in s {
      var i: nat := k - 1;
      assert i in s && k == i + 1;
    }
  }

  lemma {:induction false} ShiftedSize(s: set<nat>)
    ensures |Shifted(s)| == |s|
  {
    if s == {} {
      assert Shifted(s) == {};
    } else {
      var i :| i in s;
      ShiftedSize(s - {i});
      forall k: nat
        ensures k in Shifted(s) <==> k in Shifted(s - {i}) + {i + 1}
      {
        ShiftedHas(s, k);
        ShiftedHas(s - {i}, k);
      }
      ShiftedHas(s - {i}, i + 1);
      assert Shifted(s) == Shifted(s - {i}) + {i + 1};
    }
  }

  /** A new first element moves every place by one. */
  lemma PlacesOnFront(places: set<nat>, later: set<nat>, first: bool)
    requires forall k: nat :: k in places <==> if k == 0 then first else k - 1 in later
    ensures |places| == |later| + if first then 1 else 0
  {
    var front := if first then {0 as nat} else {};
    ShiftedSize(later);
    forall k: nat
      ensures k in places <==> k in front + Shifted(later)
    {
      ShiftedHas(later, k);
    }
    assert places == front + Shifted(later);
    ShiftedHas(later, 0);
  }
}
