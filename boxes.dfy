/** Bounding boxes of detected regions, the reading-order sort the crop
    routine applies to them (Python's stable `sorted` keyed on `(y, x)`), and
    the minimum-size filter. */
module Boxes {

  /** An axis-aligned bounding box as `cv2.boundingRect` reports it: the
      top-left corner `(x, y)`, a width and a height, all non-negative. */
  datatype Box = Box(x: nat, y: nat, w: nat, h: nat)

  /** The sort key `(y, x)`: top to bottom, then left to right. */
  function Key(b: Box): (nat, nat) {
    (b.y, b.x)
  }

  /** Python's tuple comparison `Key(a) <= Key(b)`. */
  predicate KeyLe(a: Box, b: Box) {
    a.y < b.y || (a.y == b.y && a.x <= b.x)
  }

  /** Every box is at or before every later box in reading order. */
  predicate Sorted(s: seq<Box>) {
    forall i, j :: 0 <= i < j < |s| ==> KeyLe(s[i], s[j])
  }

  // ---------------------------------------------------------------------
  // Stable sort
  // ---------------------------------------------------------------------

  /** Inserts `b` in front of the first box whose key is not smaller, so
      that `b` stays ahead of every box with the same key. */
  function Insert(b: Box, s: seq<Box>): (r: seq<Box>)
    ensures multiset(r) == multiset(s) + multiset{b}
    ensures |r| == |s| + 1
  {
    if s == [] then [b]
    else if KeyLe(b, s[0]) then [b] + s
    else
      assert s == [s[0]] + s[1..];
      [s[0]] + Insert(b, s[1..])
  }

  /** `sorted(boxes, key=lambda b: (b.y, b.x))`. */
  function SortByPosition(s: seq<Box>): (r: seq<Box>)
    ensures multiset(r) == multiset(s)
    ensures |r| == |s|
  {
    if s == [] then []
    else
      assert s == [s[0]] + s[1..];
      Insert(s[0], SortByPosition(s[1..]))
  }

  lemma {:induction false} SortedCons(b: Box, s: seq<Box>)
    requires Sorted(s)
    requires forall t :: t in s ==> KeyLe(b, t)
    ensures Sorted([b] + s)
  {
    var r := [b] + s;
    forall i, j | 0 <= i < j < |r| ensures KeyLe(r[i], r[j]) {
      if i > 0 {
        assert r[i] == s[i - 1] && r[j] == s[j - 1];
      } else {
        assert r[j] in s;
      }
    }
  }

  lemma {:induction false} InsertSorted(b: Box, s: seq<Box>)
    requires Sorted(s)
    ensures Sorted(Insert(b, s))
  {
    if s == [] {
    } else if KeyLe(b, s[0]) {
      forall t | t in s ensures KeyLe(b, t) {
        var k :| 0 <= k < |s| && s[k] == t;
        assert k == 0 || KeyLe(s[0], s[k]);
      }
      SortedCons(b, s);
    } else {
      assert Sorted(s[1..]) by {
        forall i, j | 0 <= i < j < |s[1..]| ensures KeyLe(s[1..][i], s[1..][j]) {
          assert s[1..][i] == s[i + 1] && s[1..][j] == s[j + 1];
        }
      }
      InsertSorted(b, s[1..]);
      var rest := Insert(b, s[1..]);
      forall t | t in rest ensures KeyLe(s[0], t) {
        assert t in multiset(rest);
        if t != b {
          assert t in multiset(s[1..]);
          var k :| 0 <= k < |s[1..]| && s[1..][k] == t;
          assert s[k + 1] == t;
        }
      }
      SortedCons(s[0], rest);
    }
  }

  /** The sorted boxes are in reading order. */
  lemma {:induction false} SortByPositionSorted(s: seq<Box>)
    ensures Sorted(SortByPosition(s))
  {
    if s != [] {
      SortByPositionSorted(s[1..]);
      InsertSorted(s[0], SortByPosition(s[1..]));
    }
  }

  /** The boxes of `s` whose key is `k`, in their order in `s`. */
  function WithKey(s: seq<Box>, k: (nat, nat)): seq<Box> {
    if s == [] then []
    else (if Key(s[0]) == k then [s[0]] else []) + WithKey(s[1..], k)
  }

  lemma {:induction false} InsertWithKey(b: Box, s: seq<Box>, k: (nat, nat))
    ensures WithKey(Insert(b, s), k) == (if Key(b) == k then [b] else []) + WithKey(s, k)
  {
    if s == [] {
    } else if KeyLe(b, s[0]) {
      assert ([b] + s)[1..] == s;
    } else {
      InsertWithKey(b, s[1..], k);
      InsertWithKeyStep(b, s, k);
    }
  }

  /** The inductive step of InsertWithKey, where `b` goes past `s[0]`. */
  lemma InsertWithKeyStep(b: Box, s: seq<Box>, k: (nat, nat))
    requires s != [] && !KeyLe(b, s[0])
    requires WithKey(Insert(b, s[1..]), k) == (if Key(b) == k then [b] else []) + WithKey(s[1..], k)
    ensures WithKey(Insert(b, s), k) == (if Key(b) == k then [b] else []) + WithKey(s, k)
  {
    var rest := Insert(b, s[1..]);
    var head := if Key(s[0]) == k then [s[0]] else [];
    var tail := WithKey(s[1..], k);
    assert Insert(b, s) == [s[0]] + rest;
    assert ([s[0]] + rest)[1..] == rest;
    assert WithKey(Insert(b, s), k) == head + WithKey(rest, k);
    assert WithKey(s, k) == head + tail;
    if Key(b) == k {
      assert head == [];
      assert head + tail == tail;
    } else {
      assert WithKey(rest, k) == tail;
    }
  }

  /** The sort is stable: boxes with equal keys keep their input order. */
  lemma {:induction false} SortByPositionStable(s: seq<Box>, k: (nat, nat))
    ensures WithKey(SortByPosition(s), k) == WithKey(s, k)
  {
    if s != [] {
      SortByPositionStable(s[1..], k);
      InsertWithKey(s[0], SortByPosition(s[1..]), k);
    }
  }

  // ---------------------------------------------------------------------
  // Minimum-size filter
  // ---------------------------------------------------------------------

  /** The crop routine skips a box iff `w < min_contour_width or
      h < min_contour_height`. */
  predicate BigEnough(b: Box, minWidth: int, minHeight: int) {
    !(b.w < minWidth || b.h < minHeight)
  }

  /** The boxes of `s` that are big enough, in their order in `s`. */
  function Accepted(s: seq<Box>, minWidth: int, minHeight: int): (r: seq<Box>)
    ensures |r| <= |s|
  {
    if s == [] then []
    else
      (if BigEnough(s[0], minWidth, minHeight) then [s[0]] else [])
      + Accepted(s[1..], minWidth, minHeight)
  }

  /** Filtering distributes over concatenation. */
  lemma {:induction false} AcceptedAppend(a: seq<Box>, b: seq<Box>, minWidth: int, minHeight: int)
    ensures Accepted(a + b, minWidth, minHeight)
         == Accepted(a, minWidth, minHeight) + Accepted(b, minWidth, minHeight)
  {
    if a != [] {
      AcceptedAppend(a[1..], b, minWidth, minHeight);
      assert (a + b)[1..] == a[1..] + b;
    } else {
      assert a + b == b;
    }
  }

  /** A box is among the accepted ones iff it is in the input and big
      enough. */
  lemma {:induction false} AcceptedMember(s: seq<Box>, minWidth: int, minHeight: int, b: Box)
    ensures b in Accepted(s, minWidth, minHeight) <==> b in s && BigEnough(b, minWidth, minHeight)
  {
    AcceptedCount(s, minWidth, minHeight, b);
    assert b in Accepted(s, minWidth, minHeight) <==> b in multiset(Accepted(s, minWidth, minHeight));
  }

  /** Filtering a sequence extended by one box. */
  lemma AcceptedSnoc(s: seq<Box>, b: Box, minWidth: int, minHeight: int)
    ensures Accepted(s + [b], minWidth, minHeight)
         == Accepted(s, minWidth, minHeight) + (if BigEnough(b, minWidth, minHeight) then [b] else [])
  {
    AcceptedAppend(s, [b], minWidth, minHeight);
    assert [b][1..] == [];
  }

  /** Filtering one more element of a sequence. */
  lemma AcceptedPrefix(s: seq<Box>, i: nat, minWidth: int, minHeight: int)
    requires i < |s|
    ensures Accepted(s[..i + 1], minWidth, minHeight)
         == Accepted(s[..i], minWidth, minHeight) + (if BigEnough(s[i], minWidth, minHeight) then [s[i]] else [])
  {
    assert s[..i + 1] == s[..i] + [s[i]];
    AcceptedSnoc(s[..i], s[i], minWidth, minHeight);
  }

  /** No big-enough box in the input leaves nothing. */
  lemma {:induction false} AcceptedNone(s: seq<Box>, minWidth: int, minHeight: int)
    requires forall b :: b in s ==> !BigEnough(b, minWidth, minHeight)
    ensures Accepted(s, minWidth, minHeight) == []
  {
    if s != [] {
      assert s[0] in s;
      AcceptedNone(s[1..], minWidth, minHeight);
    }
  }

  /** Each box occurs among the accepted ones exactly as often as in the
      input when it is big enough, and not at all otherwise. */
  lemma {:induction false} AcceptedCount(s: seq<Box>, minWidth: int, minHeight: int, b: Box)
    ensures multiset(Accepted(s, minWidth, minHeight))[b]
         == if BigEnough(b, minWidth, minHeight) then multiset(s)[b] else 0
  {
    if s != [] {
      AcceptedCount(s[1..], minWidth, minHeight, b);
      assert s == [s[0]] + s[1..];
    }
  }

  /** Reordering the input reorders the accepted boxes and changes nothing
      else. */
  lemma AcceptedPermutation(s: seq<Box>, t: seq<Box>, minWidth: int, minHeight: int)
    requires multiset(s) == multiset(t)
    ensures multiset(Accepted(s, minWidth, minHeight)) == multiset(Accepted(t, minWidth, minHeight))
    ensures |Accepted(s, minWidth, minHeight)| == |Accepted(t, minWidth, minHeight)|
  {
    var a, c := multiset(Accepted(s, minWidth, minHeight)), multiset(Accepted(t, minWidth, minHeight));
    forall b ensures a[b] == c[b] {
      AcceptedCount(s, minWidth, minHeight, b);
      AcceptedCount(t, minWidth, minHeight, b);
    }
    assert a == c;
    assert |a| == |Accepted(s, minWidth, minHeight)|;
  }

  /** Filtering keeps reading order. */
  lemma {:induction false} AcceptedSorted(s: seq<Box>, minWidth: int, minHeight: int)
    requires Sorted(s)
    ensures Sorted(Accepted(s, minWidth, minHeight))
  {
    if s != [] {
      assert Sorted(s[1..]) by {
        forall i, j | 0 <= i < j < |s[1..]| ensures KeyLe(s[1..][i], s[1..][j]) {
          assert s[1..][i] == s[i + 1] && s[1..][j] == s[j + 1];
        }
      }
      AcceptedSorted(s[1..], minWidth, minHeight);
      var rest := Accepted(s[1..], minWidth, minHeight);
      if BigEnough(s[0], minWidth, minHeight) {
        forall t | t in rest ensures KeyLe(s[0], t) {
          AcceptedMember(s[1..], minWidth, minHeight, t);
          var k :| 0 <= k < |s[1..]| && s[1..][k] == t;
          assert s[k + 1] == t;
        }
        SortedCons(s[0], rest);
      }
    }
  }

  /** Selecting by key and selecting by size commute. */
  lemma {:induction false} AcceptedWithKey(s: seq<Box>, minWidth: int, minHeight: int, k: (nat, nat))
    ensures WithKey(Accepted(s, minWidth, minHeight), k)
         == Accepted(WithKey(s, k), minWidth, minHeight)
  {
    if s != [] {
      AcceptedWithKey(s[1..], minWidth, minHeight, k);
      var head := if BigEnough(s[0], minWidth, minHeight) then [s[0]] else [];
      var rest := Accepted(s[1..], minWidth, minHeight);
      WithKeyAppend(head, rest, k);
      var keyed := if Key(s[0]) == k then [s[0]] else [];
      AcceptedAppend(keyed, WithKey(s[1..], k), minWidth, minHeight);
    }
  }

  lemma {:induction false} WithKeyAppend(a: seq<Box>, b: seq<Box>, k: (nat, nat))
    ensures WithKey(a + b, k) == WithKey(a, k) + WithKey(b, k)
  {
    if a != [] {
      WithKeyAppend(a[1..], b, k);
      assert (a + b)[1..] == a[1..] + b;
    } else {
      assert a + b == b;
    }
  }
}
