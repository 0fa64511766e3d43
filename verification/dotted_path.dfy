/** Dotted names: the `.`-separated strings that `fieldPath` produces and
    that `find` accepts as a locator, with splitting and joining as the
    JavaScript `String.prototype.split('.')` and `Array.prototype.join('.')`
    define them. */
module DottedPath {

  const Dot: char := '.'

  /** The pieces of `s` between dots; never empty (`""` splits to `[""]`),
      and no piece contains a dot. */
  function Split(s: string): (r: seq<string>)
    ensures |r| >= 1
    ensures forall i :: 0 <= i < |r| ==> Dot !in r[i]
  {
    if |s| == 0 then [""]
    else
      var rest := Split(s[1..]);
      if s[0] == Dot then [""] + rest
      else [[s[0]] + rest[0]] + rest[1..]
  }

  /** The pieces of `segs` with a dot between each two; `[]` joins to `""`. */
  function Join(segs: seq<string>): string
  {
    if |segs| == 0 then ""
    else if |segs| == 1 then segs[0]
    else segs[0] + [Dot] + Join(segs[1..])
  }

  predicate DotFree(segs: seq<string>)
  {
    forall i :: 0 <= i < |segs| ==> Dot !in segs[i]
  }

  /** Joining the pieces of a split gives the string back. */
  lemma {:induction false} JoinSplit(s: string)
    ensures Join(Split(s)) == s
  {
    if |s| > 0 {
      JoinSplit(s[1..]);
      var rest := Split(s[1..]);
      if s[0] == Dot {
        assert Split(s) == [""] + rest;
        assert s == [Dot] + s[1..];
      } else {
        var r := Split(s);
        assert r == [[s[0]] + rest[0]] + rest[1..];
        if |rest| == 1 {
          assert Join(r) == [s[0]] + rest[0];
          assert s == [s[0]] + s[1..];
        } else {
          assert Join(rest) == rest[0] + [Dot] + Join(rest[1..]);
          assert r[1..] == rest[1..];
          assert Join(r) == [s[0]] + rest[0] + [Dot] + Join(rest[1..]);
          assert s == [s[0]] + s[1..];
        }
      }
    }
  }

  /** A dot-free word in front of a string extends the first piece only. */
  lemma {:induction false} SplitDotFreePrefix(w: string, s: string)
    requires Dot !in w
    ensures Split(w + s) == [w + Split(s)[0]] + Split(s)[1..]
  {
    if |w| > 0 {
      SplitDotFreePrefix(w[1..], s);
      var r := Split(s);
      var rest := Split(w[1..] + s);
      assert (w + s)[1..] == w[1..] + s;
      assert (w + s)[0] == w[0] && w[0] != Dot by { assert w[0] in w; }
      assert Split(w + s) == [[w[0]] + rest[0]] + rest[1..];
      assert rest[0] == w[1..] + r[0] && rest[1..] == r[1..];
      assert [w[0]] + (w[1..] + r[0]) == w + r[0] by { assert w == [w[0]] + w[1..]; }
    } else {
      var r := Split(s);
      assert w + s == s && w + r[0] == r[0];
      assert r == [r[0]] + r[1..];
    }
  }

  /** Splitting a join of dot-free pieces gives the pieces back. */
  lemma {:induction false} SplitJoin(segs: seq<string>)
    requires |segs| >= 1 && DotFree(segs)
    ensures Split(Join(segs)) == segs
  {
    if |segs| == 1 {
      SplitDotFreePrefix(segs[0], "");
      assert segs[0] + "" == segs[0];
    } else {
      var tail := Join(segs[1..]);
      SplitJoin(segs[1..]);
      assert Split([Dot] + tail) == [""] + Split(tail);
      SplitDotFreePrefix(segs[0], [Dot] + tail);
      assert segs[0] + [Dot] + tail == segs[0] + ([Dot] + tail);
      assert segs[0] + "" == segs[0];
      assert segs == [segs[0]] + segs[1..];
    }
  }

  /** Joining two non-empty lists of pieces puts one dot between them. */
  lemma {:induction false} JoinAppend(a: seq<string>, b: seq<string>)
    requires |a| >= 1 && |b| >= 1
    ensures Join(a + b) == Join(a) + [Dot] + Join(b)
  {
    if |a| > 1 {
      JoinAppend(a[1..], b);
      assert (a + b)[1..] == a[1..] + b;
    } else {
      assert (a + b)[1..] == b;
    }
  }

  /** The join of pieces that are all non-empty is empty only when there are none. */
  lemma {:induction false} JoinEmpty(segs: seq<string>)
    requires forall i :: 0 <= i < |segs| ==> segs[i] != ""
    ensures Join(segs) == "" <==> |segs| == 0
  {
    if |segs| > 1 {
      assert |Join(segs)| >= |[Dot]|;
    }
  }

  /** A join ends with its last piece. */
  lemma {:induction false} JoinEndsWithLast(segs: seq<string>)
    requires |segs| >= 1
    ensures var j := Join(segs); var w := segs[|segs| - 1];
            |w| <= |j| && j[|j| - |w|..] == w
  {
    if |segs| > 1 {
      JoinEndsWithLast(segs[1..]);
      var tail := Join(segs[1..]);
      assert Join(segs) == (segs[0] + [Dot]) + tail;
    }
  }
}
