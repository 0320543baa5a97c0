/** Row selection with a boolean mask (`frame.loc[mask]`): the rows that
    satisfy the mask, in their original order. */
module Tables {

  /** The elements of `s` satisfying `p`, in the order they occur in `s`. */
  function Filter<T(==,!new)>(s: seq<T>, p: T -> bool): (r: seq<T>)
    ensures |r| <= |s|
    ensures forall x :: x in r <==> x in s && p(x)
  {
    if |s| == 0 then []
    else if p(s[0]) then [s[0]] + Filter(s[1..], p)
    else Filter(s[1..], p)
  }

  /** Selection distributes over concatenation: rows keep their relative order. */
  lemma {:induction false} FilterConcat<T(!new)>(a: seq<T>, b: seq<T>, p: T -> bool)
    ensures Filter(a + b, p) == Filter(a, p) + Filter(b, p)
  {
    if |a| == 0 {
      assert a + b == b;
    } else {
      assert (a + b)[0] == a[0];
      assert (a + b)[1..] == a[1..] + b;
      FilterConcat(a[1..], b, p);
    }
  }

  /** The first selected row is the earliest row of `s` satisfying `p`. */
  lemma {:induction false} FilterFirst<T(!new)>(s: seq<T>, p: T -> bool)
    requires |Filter(s, p)| > 0
    ensures exists i :: 0 <= i < |s| && s[i] == Filter(s, p)[0] && p(s[i]) &&
                        forall j :: 0 <= j < i ==> !p(s[j])
  {
    if p(s[0]) {
      assert s[0] == Filter(s, p)[0];
    } else {
      FilterFirst(s[1..], p);
      var i :| 0 <= i < |s[1..]| && s[1..][i] == Filter(s[1..], p)[0] && p(s[1..][i]) &&
               forall j :: 0 <= j < i ==> !p(s[1..][j]);
      assert s[i + 1] == Filter(s, p)[0];
      forall j | 0 <= j < i + 1 ensures !p(s[j]) {
        if j > 0 { assert s[j] == s[1..][j - 1]; }
      }
    }
  }

  /** The last selected row is the latest row of `s` satisfying `p`. */
  lemma {:induction false} FilterLast<T(!new)>(s: seq<T>, p: T -> bool)
    requires |Filter(s, p)| > 0
    ensures exists i :: 0 <= i < |s| && s[i] == Filter(s, p)[|Filter(s, p)| - 1] && p(s[i]) &&
                        forall j :: i < j < |s| ==> !p(s[j])
  {
    var r := Filter(s, p);
    var t := s[1..];
    var rt := Filter(t, p);
    assert r == if p(s[0]) then [s[0]] + rt else rt;
    if |rt| > 0 {
      assert r[|r| - 1] == rt[|rt| - 1];
      FilterLast(t, p);
      var i :| 0 <= i < |t| && t[i] == rt[|rt| - 1] && p(t[i]) &&
               forall j :: i < j < |t| ==> !p(t[j]);
      assert s[i + 1] == t[i];
      forall j | i + 1 < j < |s| ensures !p(s[j]) {
        assert s[j] == t[j - 1];
      }
    } else {
      assert p(s[0]) && r == [s[0]];
      forall j | 0 < j < |s| ensures !p(s[j]) {
        assert s[j] == t[j - 1];
        assert s[j] in t;
      }
    }
  }
}
