/**
 Small general-purpose pieces shared by the source-selector model: an
 optional value, an order-preserving filter over sequences (the model of
 JavaScript's `Array.prototype.filter`) and a first-index search (the model
 of `Array.prototype.indexOf` / `findIndex`, which answer -1 when nothing
 matches).
 */
module Common {

  /** A value that may be absent, standing for `undefined` in the source. */
  datatype Option<+T> = None | Some(value: T)

  /** Keeps, in their original order, exactly the elements satisfying `p`. */
  function Filter<T>(s: seq<T>, p: T -> bool): (r: seq<T>)
    ensures |r| <= |s|
    ensures forall k :: 0 <= k < |r| ==> r[k] in s && p(r[k])
    ensures forall k :: 0 <= k < |s| && p(s[k]) ==> s[k] in r
  {
    if |s| == 0 then []
    else if p(s[0]) then [s[0]] + Filter(s[1..], p)
    else Filter(s[1..], p)
  }

  /** The concatenation of a sequence of blocks, in order (the model of a
      loop that appends one block per element). */
  function Flatten<T>(ss: seq<seq<T>>): seq<T> {
    if |ss| == 0 then [] else ss[0] + Flatten(ss[1..])
  }

  /** `b` occurs whole in `f`, starting at offset `o`. */
  ghost predicate BlockAt<T>(f: seq<T>, b: seq<T>, o: nat) {
    o + |b| <= |f| && f[o..o + |b|] == b
  }

  /** A sequence occurs at the head of any extension of it. */
  lemma BlockAtHead<T>(a: seq<T>, g: seq<T>)
    ensures BlockAt(a + g, a, 0)
  {
    assert (a + g)[..|a|] == a;
  }

  /** A block of `g` at offset `o` is a block of `a + g` at `|a| + o`. */
  lemma BlockAtShift<T>(a: seq<T>, g: seq<T>, b: seq<T>, o: nat)
    requires BlockAt(g, b, o)
    ensures BlockAt(a + g, b, |a| + o)
  {
    assert (a + g)[|a| + o..|a| + o + |b|] == g[o..o + |b|];
  }

  /** Block `i` occurs whole in the flattening, at offset `o`. */
  lemma {:induction false} FlattenBlock<T>(ss: seq<seq<T>>, i: nat) returns (o: nat)
    requires i < |ss|
    ensures BlockAt(Flatten(ss), ss[i], o)
  {
    if i == 0 {
      BlockAtHead(ss[0], Flatten(ss[1..]));
      o := 0;
    } else {
      var o' := FlattenBlock(ss[1..], i - 1);
      assert ss[1..][i - 1] == ss[i];
      BlockAtShift(ss[0], Flatten(ss[1..]), ss[i], o');
      o := |ss[0]| + o';
    }
  }

  /** Blocks occur in the flattening in their order: block `i` ends before
      a later block `j` starts. */
  lemma {:induction false} FlattenBlocksInOrder<T>(ss: seq<seq<T>>, i: nat, j: nat) returns (oi: nat, oj: nat)
    requires i < j < |ss|
    ensures oi + |ss[i]| <= oj
    ensures BlockAt(Flatten(ss), ss[i], oi) && BlockAt(Flatten(ss), ss[j], oj)
  {
    var rest := Flatten(ss[1..]);
    assert ss[1..][j - 1] == ss[j];
    if i == 0 {
      BlockAtHead(ss[0], rest);
      var o' := FlattenBlock(ss[1..], j - 1);
      BlockAtShift(ss[0], rest, ss[j], o');
      oi, oj := 0, |ss[0]| + o';
    } else {
      assert ss[1..][i - 1] == ss[i];
      var oi', oj' := FlattenBlocksInOrder(ss[1..], i - 1, j - 1);
      BlockAtShift(ss[0], rest, ss[i], oi');
      BlockAtShift(ss[0], rest, ss[j], oj');
      oi, oj := |ss[0]| + oi', |ss[0]| + oj';
    }
  }

  /** Relative order survives filtering: two kept elements at positions
      i < j of the input appear at positions k1 < k2 of the output. */
  lemma {:induction false} FilterKeepsOrder<T>(s: seq<T>, p: T -> bool, i: nat, j: nat) returns (k1: nat, k2: nat)
    requires i < j < |s|
    requires p(s[i]) && p(s[j])
    ensures k1 < k2 < |Filter(s, p)|
    ensures Filter(s, p)[k1] == s[i] && Filter(s, p)[k2] == s[j]
  {
    var rest := Filter(s[1..], p);
    if i == 0 {
      assert s[1..][j - 1] == s[j];
      var m :| 0 <= m < |rest| && rest[m] == s[j];
      k1, k2 := 0, m + 1;
    } else {
      var m1, m2 := FilterKeepsOrder(s[1..], p, i - 1, j - 1);
      if p(s[0]) {
        k1, k2 := m1 + 1, m2 + 1;
      } else {
        k1, k2 := m1, m2;
      }
    }
  }

  /** Nothing survives a filter that no element satisfies. */
  lemma {:induction false} FilterNone<T>(s: seq<T>, p: T -> bool)
    requires forall k :: 0 <= k < |s| ==> !p(s[k])
    ensures Filter(s, p) == []
  {
    if |s| > 0 {
      FilterNone(s[1..], p);
    }
  }

  /** Index of the first occurrence of `x` in `s`, or -1 when absent. */
  function IndexOf<T(==)>(s: seq<T>, x: T): (r: int)
    ensures -1 <= r < |s|
    ensures r == -1 <==> x !in s
    ensures 0 <= r ==> s[r] == x && x !in s[..r]
  {
    if |s| == 0 then -1
    else if s[0] == x then 0
    else
      var k := IndexOf(s[1..], x);
      if k == -1 then -1 else k + 1
  }

  /** Removes the element at position `i` (JavaScript's `splice(i, 1)`). */
  function RemoveAt<T>(s: seq<T>, i: nat): (r: seq<T>)
    requires i < |s|
    ensures |r| == |s| - 1
    ensures multiset(r) == multiset(s) - multiset{s[i]}
  {
    assert s == s[..i] + [s[i]] + s[i + 1..];
    s[..i] + s[i + 1..]
  }

  /** Everything but the last element (JavaScript's `slice(0, -1)`, which
      yields the empty array for an empty input). */
  function DropLast<T>(s: seq<T>): (r: seq<T>)
    ensures |s| > 0 ==> r + [s[|s| - 1]] == s
    ensures |s| == 0 ==> r == []
  {
    if |s| == 0 then [] else s[..|s| - 1]
  }
}
