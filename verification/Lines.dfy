/** Text as lines, and subsequences of lines. */
module Lines {

  predicate OneLine(s: string) {
    '\n' !in s
  }

  /** Splitting at every newline: the empty text is one empty line. */
  function Split(s: string): (ls: seq<string>)
    ensures |ls| > 0 && forall l :: l in ls ==> OneLine(l)
  {
    if s == "" then [""]
    else
      var rest := Split(s[1..]);
      if s[0] == '\n' then [""] + rest
      else
        assert OneLine([s[0]] + rest[0]) by {
          assert OneLine(rest[0]) && rest[0] in rest;
          assert forall c :: c in [s[0]] + rest[0] ==> c == s[0] || c in rest[0];
        }
        assert forall l :: l in rest[1..] ==> l in rest;
        [[s[0]] + rest[0]] + rest[1..]
  }

  function Join(ls: seq<string>): string {
    if ls == [] then ""
    else if |ls| == 1 then ls[0]
    else ls[0] + "\n" + Join(ls[1..])
  }

  lemma {:induction false} JoinSplit(s: string)
    ensures Join(Split(s)) == s
  {
    if s != "" {
      var rest := Split(s[1..]);
      JoinSplit(s[1..]);
      if s[0] == '\n' {
        assert ([""] + rest)[1..] == rest;
      } else {
        assert Split(s)[0] == [s[0]] + rest[0] && Split(s)[1..] == rest[1..];
        assert Join(Split(s)) == [s[0]] + Join(rest);
      }
    }
  }

  lemma {:induction false} SplitJoin(ls: seq<string>)
    requires |ls| > 0 && forall l :: l in ls ==> OneLine(l)
    ensures Split(Join(ls)) == ls
  {
    if |ls| == 1 {
      SplitLine(ls[0], "");
      assert ls[0] + "" == ls[0] && ls == [ls[0]];
      assert Split("") == [""];
    } else {
      SplitJoin(ls[1..]);
      var tail := "\n" + Join(ls[1..]);
      assert tail[1..] == Join(ls[1..]);
      assert Split(tail) == [""] + ls[1..];
      SplitLine(ls[0], tail);
      assert Join(ls) == ls[0] + tail;
      assert ls[0] + Split(tail)[0] == ls[0] && Split(tail)[1..] == ls[1..];
      assert [ls[0]] + ls[1..] == ls;
    }
  }

  lemma {:induction false} SplitLine(l: string, s: string)
    requires OneLine(l)
    ensures Split(l + s) == [l + Split(s)[0]] + Split(s)[1..]
    decreases |l|
  {
    if l == "" {
      assert l + s == s && l + Split(s)[0] == Split(s)[0];
      assert [Split(s)[0]] + Split(s)[1..] == Split(s);
    } else {
      assert (l + s)[1..] == l[1..] + s && (l + s)[0] == l[0];
      SplitLine(l[1..], s);
      assert [l[0]] + (l[1..] + Split(s)[0]) == l + Split(s)[0];
    }
  }

  lemma SplitInjective(s: string, t: string)
    ensures Split(s) == Split(t) <==> s == t
  {
    JoinSplit(s);
    JoinSplit(t);
  }

  /** `c` arises from `a` by leaving elements out. */
  ghost predicate Subseq<T>(c: seq<T>, a: seq<T>)
    decreases |a|
  {
    c == [] || (a != [] && ((c[0] == a[0] && Subseq(c[1..], a[1..])) || Subseq(c, a[1..])))
  }

  lemma {:induction false} SubseqRefl<T>(a: seq<T>)
    ensures Subseq(a, a)
  {
    if a != [] { SubseqRefl(a[1..]); }
  }

  lemma {:induction false} SubseqTail<T>(c: seq<T>, a: seq<T>)
    requires c != [] && Subseq(c, a)
    ensures a != [] && Subseq(c[1..], a[1..])
    decreases |a|
  {
    if !(c[0] == a[0] && Subseq(c[1..], a[1..])) {
      SubseqTail(c, a[1..]);
      SubseqGrow(c[1..], [a[1]], a[2..]);
      assert [a[1]] + a[2..] == a[1..] && a[1..][1..] == a[2..];
    }
  }

  lemma {:induction false} SubseqGrow<T>(c: seq<T>, pre: seq<T>, a: seq<T>)
    requires Subseq(c, a)
    ensures Subseq(c, pre + a)
    decreases |pre|
  {
    if pre == [] {
      assert pre + a == a;
    } else {
      assert (pre + a)[1..] == pre[1..] + a;
      SubseqGrow(c, pre[1..], a);
    }
  }

  lemma {:induction false} SubseqAppend<T>(c: seq<T>, a: seq<T>, d: seq<T>, b: seq<T>)
    requires Subseq(c, a) && Subseq(d, b)
    ensures Subseq(c + d, a + b)
    decreases |a|
  {
    if c == [] {
      assert c + d == d;
      SubseqGrow(d, a, b);
    } else {
      assert (a + b)[1..] == a[1..] + b;
      if c[0] == a[0] && Subseq(c[1..], a[1..]) {
        SubseqAppend(c[1..], a[1..], d, b);
        assert (c + d)[1..] == c[1..] + d;
      } else {
        SubseqAppend(c, a[1..], d, b);
      }
    }
  }
}
