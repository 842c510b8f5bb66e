/** Strings as the program uses them: byte-wise comparison and joining with a separator. */
module Text {

  datatype Option<+T> = None | Some(value: T)

  /** Go's `<` on strings: lexicographic order. */
  predicate Less(a: string, b: string)
  {
    b != "" && (a == "" || a[0] < b[0] || (a[0] == b[0] && Less(a[1..], b[1..])))
  }

  lemma {:induction false} LessTotal(a: string, b: string)
    ensures Less(a, b) || a == b || Less(b, a)
    ensures !(Less(a, b) && Less(b, a)) && !Less(a, a)
  {
    if a != "" && b != "" && a[0] == b[0] {
      LessTotal(a[1..], b[1..]);
      assert a == [a[0]] + a[1..] && b == [b[0]] + b[1..];
    }
    LessIrreflexive(a);
  }

  lemma {:induction false} LessIrreflexive(a: string)
    ensures !Less(a, a)
  {
    if a != "" {
      LessIrreflexive(a[1..]);
    }
  }

  lemma {:induction false} LessTransitive(a: string, b: string, c: string)
    requires !Less(b, a) && !Less(c, b)
    ensures !Less(c, a)
  {
    if a != "" && b != "" && c != "" && a[0] == b[0] == c[0] {
      LessTransitive(a[1..], b[1..], c[1..]);
    }
  }

  lemma SamePrefix(a: string, b: string, k: nat)
    requires 0 < k <= |a| && k <= |b| && a[..k] == b[..k]
    ensures a[0] == b[0]
  {
    assert a[..k][0] == a[0] && b[..k][0] == b[0];
  }

  /** One string is less than another when it ends first or has the smaller character where they first differ. */
  lemma {:induction false} LessMeaning(a: string, b: string)
    ensures Less(a, b) <==>
            exists k :: 0 <= k <= |a| && k < |b| && a[..k] == b[..k] && (k == |a| || a[k] < b[k])
  {
    if a == "" || b == "" || a[0] != b[0] {
      if k :| 0 <= k <= |a| && k < |b| && a[..k] == b[..k] && (k == |a| || a[k] < b[k]) {
        if k > 0 {
          SamePrefix(a, b, k);
        }
      }
      assert b != "" ==> a[..0] == b[..0];
    } else {
      LessMeaning(a[1..], b[1..]);
      if k :| 0 <= k <= |a[1..]| && k < |b[1..]| && a[1..][..k] == b[1..][..k] && (k == |a[1..]| || a[1..][k] < b[1..][k]) {
        assert a[..k + 1] == [a[0]] + a[1..][..k] && b[..k + 1] == [b[0]] + b[1..][..k];
      }
      if k :| 0 <= k <= |a| && k < |b| && a[..k] == b[..k] && (k == |a| || a[k] < b[k]) {
        assert a[1..][..k - 1] == a[..k][1..] == b[..k][1..] == b[1..][..k - 1];
      }
    }
  }

  predicate Occurs(sub: string, s: string, at: int)
  {
    0 <= at <= |s| - |sub| && s[at..at + |sub|] == sub
  }

  /** strings.Contains */
  predicate Contains(s: string, sub: string)
  {
    exists at :: 0 <= at <= |s| && Occurs(sub, s, at)
  }

  /** strings.Join for a non-empty list. */
  function Join(parts: seq<string>, sep: string): string
    requires parts != []
  {
    if |parts| == 1 then parts[0] else parts[0] + sep + Join(parts[1..], sep)
  }

  const ARROW := "->"

  /** Joining with "->" loses nothing when no part contains "->". */
  lemma {:induction false} JoinInjective(a: seq<string>, b: seq<string>)
    requires a != [] && b != []
    requires forall i :: 0 <= i < |a| ==> !Contains(a[i], ARROW)
    requires forall i :: 0 <= i < |b| ==> !Contains(b[i], ARROW)
    requires Join(a, ARROW) == Join(b, ARROW)
    ensures a == b
  {
    if |a| > 1 {
      ArrowAfterHead(a, b);
    }
    if |b| > 1 {
      ArrowAfterHead(b, a);
    }
    if |a| > 1 && |b| > 1 {
      HeadThenArrow(a);
      HeadThenArrow(b);
      JoinInjective(a[1..], b[1..]);
      assert a == [a[0]] + a[1..] && b == [b[0]] + b[1..];
    }
  }

  lemma HeadThenArrow(a: seq<string>)
    requires |a| > 1
    ensures |Join(a, ARROW)| >= |a[0]| + 2
    ensures Join(a, ARROW)[..|a[0]|] == a[0]
    ensures Join(a, ARROW)[|a[0]|] == '-' && Join(a, ARROW)[|a[0]| + 1] == '>'
    ensures Join(a, ARROW)[|a[0]| + 2..] == Join(a[1..], ARROW)
  {
    assert Join(a, ARROW) == a[0] + ARROW + Join(a[1..], ARROW);
  }

  /** The first separator of one split sits at or after the end of the head of any other split
      of the same text, unless that head contains a separator. */
  lemma ArrowAfterHead(a: seq<string>, b: seq<string>)
    requires |a| > 1 && b != []
    requires Join(a, ARROW) == Join(b, ARROW)
    ensures |b[0]| <= |a[0]| || Contains(b[0], ARROW)
    ensures |b| == 1 ==> Contains(b[0], ARROW)
  {
    HeadThenArrow(a);
    var s, at := Join(a, ARROW), |a[0]|;
    if |b| == 1 {
      ArrowWithin(s, b[0], at);
    } else {
      HeadThenArrow(b);
      if at + 2 <= |b[0]| {
        ArrowWithin(s, b[0], at);
      }
    }
  }

  lemma ArrowWithin(s: string, head: string, at: nat)
    requires head <= s && at + 2 <= |head|
    requires s[at] == '-' && s[at + 1] == '>'
    ensures Contains(head, ARROW)
  {
    assert head[at] == s[at] && head[at + 1] == s[at + 1];
    assert head[at..at + 2] == ARROW;
    assert Occurs(ARROW, head, at);
  }
}
