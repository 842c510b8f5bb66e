/**
 Cycles of a rule graph and the text key the linter deduplicates them by (extractCycle, cycleKey).
 A cycle lists its nodes and repeats the first at the end.
 */
module CycleKeys {
  import opened Text

  type Node = nat

  predicate Distinct<T(==)>(s: seq<T>)
  {
    forall i, j :: 0 <= i < j < |s| ==> s[i] != s[j]
  }

  function Rot<T>(s: seq<T>, k: nat): seq<T>
    requires k <= |s|
  {
    s[k..] + s[..k]
  }

  /** The same closed walk entered at another node. */
  predicate IsRotation(a: seq<Node>, b: seq<Node>)
  {
    exists k :: 0 <= k < |a| && b == Rot(a, k)
  }

  function Open(cycle: seq<Node>): seq<Node>
    requires |cycle| >= 2
  {
    cycle[..|cycle| - 1]
  }

  // ---------- the key ----------

  function Names(nodes: seq<Node>, ids: seq<string>): (names: seq<string>)
    requires forall i :: 0 <= i < |nodes| ==> nodes[i] < |ids|
    ensures |names| == |nodes| && forall i :: 0 <= i < |nodes| ==> names[i] == ids[nodes[i]]
  {
    seq(|nodes|, i requires 0 <= i < |nodes| => ids[nodes[i]])
  }

  /** The first position of a smallest name among the first n. */
  ghost predicate IsMinOf(names: seq<string>, n: int, m: int)
  {
    && 0 <= m < n <= |names|
    && (forall i :: 0 <= i < n ==> !Less(names[i], names[m]))
    && (forall i :: 0 <= i < m ==> names[i] != names[m])
  }

  ghost predicate IsMin(names: seq<string>, m: int)
  {
    IsMinOf(names, |names|, m)
  }

  lemma MinStep(names: seq<string>, n: int, m: int)
    requires IsMinOf(names, n, m) && n < |names|
    ensures IsMinOf(names, n + 1, if Less(names[n], names[m]) then n else m)
  {
    LessIrreflexive(names[n]);
    if Less(names[n], names[m]) {
      forall k | 0 <= k < n ensures !Less(names[k], names[n]) && names[k] != names[n] {
        LessTotal(names[n], names[m]);
        LessTransitive(names[n], names[m], names[k]);
      }
    }
  }

  lemma RotAt<T>(s: seq<T>, k: nat, i: nat)
    requires k < |s| && i < |s|
    ensures Rot(s, k)[i] == s[(i + k) % |s|]
  {
    WrapAround(i + k, |s|);
  }

  lemma WrapAround(x: nat, n: nat)
    requires n > 0 && x < 2 * n
    ensures x % n == if x < n then x else x - n
  {
  }

  ghost predicate IsKey(cycle: seq<Node>, ids: seq<string>, key: string)
    requires |cycle| >= 2 && forall i :: 0 <= i < |cycle| ==> cycle[i] < |ids|
  {
    exists m :: IsMin(Names(Open(cycle), ids), m) && key == Join(Rot(Names(Open(cycle), ids), m), ARROW)
  }

  /** cycleKey: finds a smallest ID, rotates it to the front, and joins the IDs. */
  method CycleKey(cycle: seq<Node>, ids: seq<string>) returns (key: string)
    requires forall i :: 0 <= i < |cycle| ==> cycle[i] < |ids|
    ensures |cycle| <= 1 ==> key == ""
    ensures |cycle| >= 2 ==> IsKey(cycle, ids, key)
  {
    if |cycle| <= 1 {
      return "";
    }
    var nodes := cycle[..|cycle| - 1];
    var minIdx := SmallestName(nodes, ids);
    var rotated := RotatedNames(nodes, ids, minIdx);
    key := Join(rotated, ARROW);
    assert nodes == Open(cycle) && IsMin(Names(Open(cycle), ids), minIdx);
  }

  /** cycleKey's first loop. */
  method SmallestName(nodes: seq<Node>, ids: seq<string>) returns (minIdx: nat)
    requires nodes != [] && forall i :: 0 <= i < |nodes| ==> nodes[i] < |ids|
    ensures IsMin(Names(nodes, ids), minIdx)
  {
    ghost var names := Names(nodes, ids);
    minIdx := 0;
    LessIrreflexive(names[0]);
    for i := 1 to |nodes|
      invariant IsMinOf(names, i, minIdx)
    {
      MinStep(names, i, minIdx);
      if Less(ids[nodes[i]], ids[nodes[minIdx]]) {
        minIdx := i;
      }
    }
  }

  /** cycleKey's second loop. */
  method RotatedNames(nodes: seq<Node>, ids: seq<string>, minIdx: nat) returns (rotated: seq<string>)
    requires minIdx < |nodes| && forall i :: 0 <= i < |nodes| ==> nodes[i] < |ids|
    ensures rotated == Rot(Names(nodes, ids), minIdx)
  {
    ghost var target := Rot(Names(nodes, ids), minIdx);
    rotated := [];
    for i := 0 to |nodes|
      invariant rotated == target[..i]
    {
      var at := (i + minIdx) % |nodes|;
      RotAt(Names(nodes, ids), minIdx, i);
      assert target[i] == ids[nodes[at]];
      rotated := rotated + [ids[nodes[at]]];
    }
  }

  /** The key names the nodes in cycle order from the first one whose ID no other's is less than. */
  lemma KeySpelled(cycle: seq<Node>, ids: seq<string>, key: string) returns (m: nat, names: seq<string>)
    requires |cycle| >= 2 && (forall i :: 0 <= i < |cycle| ==> cycle[i] < |ids|) && IsKey(cycle, ids, key)
    ensures m < |cycle| - 1 && |names| == |cycle| - 1 && key == Join(names, "->")
    ensures forall i :: 0 <= i < |cycle| - 1 ==> !Less(ids[cycle[i]], ids[cycle[m]])
    ensures forall i :: 0 <= i < m ==> ids[cycle[i]] != ids[cycle[m]]
    ensures forall i :: 0 <= i < |cycle| - 1 ==> names[i] == ids[cycle[(i + m) % (|cycle| - 1)]]
  {
    hide Less, Join;
    var open := Names(Open(cycle), ids);
    assert forall i :: 0 <= i < |open| ==> open[i] == ids[cycle[i]];
    m :| IsMin(open, m) && key == Join(Rot(open, m), ARROW);
    names := Rot(open, m);
    forall i | 0 <= i < |names| ensures names[i] == ids[cycle[(i + m) % (|cycle| - 1)]] {
      RotAt(open, m, i);
    }
  }

  /** extractCycle: the part of the stack from `start` on, closed by `start`. */
  method ExtractCycle(stack: seq<Node>, start: Node) returns (cycle: Option<seq<Node>>)
    ensures start in stack ==> exists i :: 0 <= i < |stack| && stack[i] == start && start !in stack[..i]
                                           && cycle == Some(stack[i..] + [start])
    ensures start !in stack ==> cycle.None?
  {
    for i := 0 to |stack|
      invariant start !in stack[..i]
    {
      if stack[i] == start {
        return Some(stack[i..] + [start]);
      }
    }
    return None;
  }

  // ---------- keys tell cycles apart up to rotation ----------

  predicate UsableIDs(ids: seq<string>)
  {
    Distinct(ids) && forall i :: 0 <= i < |ids| ==> !Contains(ids[i], ARROW)
  }

  lemma SplitConcat<T>(a: seq<T>, b: seq<T>, j: nat)
    requires j <= |a| + |b|
    ensures j <= |a| ==> (a + b)[j..] == a[j..] + b && (a + b)[..j] == a[..j]
    ensures j >= |a| ==> (a + b)[j..] == b[j - |a|..] && (a + b)[..j] == a + b[..j - |a|]
  {
  }

  lemma RotRot<T>(s: seq<T>, i: nat, j: nat) returns (k: nat)
    requires i < |s| && j < |s|
    ensures k < |s| && Rot(Rot(s, i), j) == Rot(s, k)
  {
    SplitConcat(s[i..], s[..i], j);
    if i + j < |s| {
      k := i + j;
      assert s[i..][j..] == s[k..] && s[..i] + s[i..][..j] == s[..k];
    } else {
      k := i + j - |s|;
      assert s[..i][k..] + s[i..] == s[k..] && s[..i][..k] == s[..k];
    }
  }

  lemma RotBack<T>(s: seq<T>, i: nat) returns (k: nat)
    requires i < |s|
    ensures k < |s| && s == Rot(Rot(s, i), k)
  {
    k := if i == 0 then 0 else |s| - i;
    assert Rot(s, i)[|s| - i..] == s[..i] && Rot(s, i)[..|s| - i] == s[i..];
  }

  lemma RotNames(nodes: seq<Node>, ids: seq<string>, k: nat)
    requires k <= |nodes| && forall i :: 0 <= i < |nodes| ==> nodes[i] < |ids|
    ensures forall i :: 0 <= i < |Rot(nodes, k)| ==> Rot(nodes, k)[i] < |ids|
    ensures Names(Rot(nodes, k), ids) == Rot(Names(nodes, ids), k)
  {
  }

  lemma NamesInjective(a: seq<Node>, b: seq<Node>, ids: seq<string>)
    requires Distinct(ids)
    requires forall i :: 0 <= i < |a| ==> a[i] < |ids|
    requires forall i :: 0 <= i < |b| ==> b[i] < |ids|
    requires Names(a, ids) == Names(b, ids)
    ensures a == b
  {
    forall i | 0 <= i < |a| ensures a[i] == b[i] {
      assert Names(a, ids)[i] == ids[a[i]] && Names(b, ids)[i] == ids[b[i]];
    }
  }

  lemma RotSameHead<T>(s: seq<T>, i: nat, j: nat)
    requires Distinct(s) && i < |s| && j < |s|
    requires Rot(s, i)[0] == Rot(s, j)[0]
    ensures i == j
  {
  }

  lemma NamesDistinct(nodes: seq<Node>, ids: seq<string>)
    requires Distinct(ids) && Distinct(nodes)
    requires forall i :: 0 <= i < |nodes| ==> nodes[i] < |ids|
    ensures Distinct(Names(nodes, ids))
  {
  }

  /** Among distinct names, two smallest ones are the same, wherever the lists start. */
  lemma MinUnique(a: seq<string>, b: seq<string>, ma: int, mb: int)
    requires IsMin(a, ma) && IsMin(b, mb)
    requires a[ma] in b && b[mb] in a
    ensures a[ma] == b[mb]
  {
    LessTotal(a[ma], b[mb]);
  }

  lemma EqualKeysRotate(a: seq<Node>, b: seq<Node>, ids: seq<string>, ma: nat, mb: nat)
    requires UsableIDs(ids)
    requires forall i :: 0 <= i < |a| ==> a[i] < |ids|
    requires forall i :: 0 <= i < |b| ==> b[i] < |ids|
    requires ma < |a| && mb < |b|
    requires Join(Rot(Names(a, ids), ma), ARROW) == Join(Rot(Names(b, ids), mb), ARROW)
    ensures IsRotation(a, b)
  {
    RotNames(a, ids, ma);
    RotNames(b, ids, mb);
    JoinInjective(Rot(Names(a, ids), ma), Rot(Names(b, ids), mb));
    NamesInjective(Rot(a, ma), Rot(b, mb), ids);
    var k := RotBack(b, mb);
    var j := RotRot(a, ma, k);
  }

  lemma RotationsAgree(na: seq<string>, nb: seq<string>, k: nat, ma: nat, mb: nat)
    requires Distinct(na) && k < |na| && nb == Rot(na, k)
    requires IsMin(na, ma) && IsMin(nb, mb)
    ensures Rot(na, ma) == Rot(nb, mb)
  {
    assert na == na[..k] + na[k..];
    assert nb[mb] in na && na[ma] in nb;
    MinUnique(na, nb, ma, mb);
    var j := RotRot(na, k, mb);
    assert Rot(na, j)[0] == nb[mb] && Rot(na, ma)[0] == na[ma];
    RotSameHead(na, j, ma);
  }

  /** Keys of two cycles are equal exactly when one cycle is a rotation of the other. */
  lemma KeyIffRotation(c1: seq<Node>, c2: seq<Node>, ids: seq<string>, k1: string, k2: string)
    requires UsableIDs(ids)
    requires |c1| >= 2 && |c2| >= 2 && Distinct(Open(c1)) && Distinct(Open(c2))
    requires forall i :: 0 <= i < |c1| ==> c1[i] < |ids|
    requires forall i :: 0 <= i < |c2| ==> c2[i] < |ids|
    requires IsKey(c1, ids, k1) && IsKey(c2, ids, k2)
    ensures k1 == k2 <==> IsRotation(Open(c1), Open(c2))
  {
    hide Join, Less, Contains, IsRotation, Distinct, Names;
    var a, b := Open(c1), Open(c2);
    var ma :| IsMin(Names(a, ids), ma) && k1 == Join(Rot(Names(a, ids), ma), ARROW);
    var mb :| IsMin(Names(b, ids), mb) && k2 == Join(Rot(Names(b, ids), mb), ARROW);
    if k1 == k2 {
      EqualKeysRotate(a, b, ids, ma, mb);
    }
    if IsRotation(a, b) {
      RotatedAgree(a, b, ids, ma, mb);
    }
  }

  lemma RotatedAgree(a: seq<Node>, b: seq<Node>, ids: seq<string>, ma: nat, mb: nat)
    requires Distinct(ids) && Distinct(a) && IsRotation(a, b)
    requires forall i :: 0 <= i < |a| ==> a[i] < |ids|
    requires forall i :: 0 <= i < |b| ==> b[i] < |ids|
    requires IsMin(Names(a, ids), ma) && IsMin(Names(b, ids), mb)
    ensures Rot(Names(a, ids), ma) == Rot(Names(b, ids), mb)
  {
    var k :| 0 <= k < |a| && b == Rot(a, k);
    RotNames(a, ids, k);
    NamesDistinct(a, ids);
    RotationsAgree(Names(a, ids), Names(b, ids), k, ma, mb);
  }
}
