/**
 Why paths may be lists of segments: on non-empty dot-free segments the dotted text and the list say
 the same, and the source's prefix test on text is the proper-prefix test on lists.
 */
module Dotted {
  import opened Text
  import opened PropertyFold

  predicate IsPath(p: Path) {
    forall i :: 0 <= i < |p| ==> p[i] != "" && '.' !in p[i]
  }

  function AsText(p: Path): string {
    Join(p, '.')
  }

  lemma TextShape(p: Path)
    requires p != [] && IsPath(p)
    ensures AsText(p) == if |p| == 1 then p[0] else p[0] + "." + AsText(p[1..])
    ensures IndexOf(AsText(p), '.') == |p[0]| && AsText(p)[..|p[0]|] == p[0]
  {
    if |p| == 1 {
      IndexOfAbsent(p[0], '.');
    } else {
      IndexOfFirst(p[0], '.', AsText(p[1..]));
    }
  }

  /** `q.startswith(p + ".")` is `p` being a proper prefix of `q`. */
  lemma {:induction false} StartsWithIsProperPrefix(p: Path, q: Path)
    requires p != [] && IsPath(p) && IsPath(q)
    ensures AsText(p) + "." <= AsText(q) <==> p < q
    decreases |p|
  {
    TextShape(p);
    var whole := AsText(p) + ".";
    if q == [] {
      assert |AsText(q)| < |whole|;
    } else {
      TextShape(q);
      if p[0] == q[0] {
        if |p| == 1 {
          assert whole == p[0] + ".";
          assert |q| > 1 ==> AsText(q)[..|whole|] == whole;
        } else if |q| == 1 {
          assert |AsText(q)| < |whole|;
        } else {
          StartsWithIsProperPrefix(p[1..], q[1..]);
          var head := p[0] + ".";
          assert whole == head + (AsText(p[1..]) + ".") && AsText(q) == head + AsText(q[1..]);
          PrefixShift(head, AsText(p[1..]) + ".", AsText(q[1..]));
          assert p == [p[0]] + p[1..] && q == [q[0]] + q[1..];
        }
      } else if whole <= AsText(q) {
        FirstDotOfPrefix(p, q);
      }
    }
  }

  lemma PrefixShift(head: string, a: string, b: string)
    ensures head + a <= head + b <==> a <= b
  {
    if head + a <= head + b {
      assert forall i :: 0 <= i < |a| ==> a[i] == (head + a)[|head| + i] == (head + b)[|head| + i] == b[i];
    }
  }

  lemma FirstDotOfPrefix(p: Path, q: Path)
    requires p != [] && q != [] && IsPath(p) && IsPath(q) && AsText(p) + "." <= AsText(q)
    ensures p[0] == q[0]
  {
    TextShape(p);
    TextShape(q);
    var n := |p[0]|;
    var whole := AsText(p) + ".";
    assert whole[..n] == p[0] && whole[n] == '.';
    var text := AsText(q);
    assert text[..n] == p[0] && text[n] == '.';
    assert text == p[0] + "." + text[n + 1..];
    IndexOfFirst(p[0], '.', text[n + 1..]);
  }

  /** Distinct paths have distinct texts: splitting the text gives the path back. */
  lemma TextIsInjective(p: Path, q: Path)
    requires p != [] && q != [] && IsPath(p) && IsPath(q)
    ensures AsText(p) == AsText(q) ==> p == q
  {
    SplitOfJoin(p, '.');
    SplitOfJoin(q, '.');
  }
}
