/**
 * Dotted names: a qualified name is a sequence of segments, written as one
 * string with a separator character between consecutive segments. `Join`
 * is the specification of the string a package prints for its name; `Split`
 * is its inverse on names whose segments do not contain the separator.
 */
module DottedNames {

  /** The sum of the lengths of the segments. */
  function TotalLength(segs: seq<string>): (n: nat)
  {
    if segs == [] then 0 else |segs[0]| + TotalLength(segs[1..])
  }

  /** The segments in order, with one `sep` between each two consecutive ones
      and none after the last. */
  function Join(segs: seq<string>, sep: char): (r: string)
    ensures |r| == TotalLength(segs) + (if |segs| == 0 then 0 else |segs| - 1)
  {
    if |segs| == 0 then ""
    else if |segs| == 1 then segs[0]
    else segs[0] + [sep] + Join(segs[1..], sep)
  }

  /** No segment contains the separator. */
  predicate NoSeparator(segs: seq<string>, sep: char)
  {
    forall i :: 0 <= i < |segs| ==> sep !in segs[i]
  }

  /** A name that `Split` recovers from its joined form. */
  predicate WellFormed(segs: seq<string>, sep: char)
  {
    |segs| > 0 && NoSeparator(segs, sep)
  }

  /** The pieces of `s` between occurrences of `sep`, empty pieces included:
      always one more piece than there are separators in `s`. */
  function Split(s: string, sep: char): (r: seq<string>)
    ensures |r| == multiset(s)[sep] + 1
    ensures NoSeparator(r, sep)
  {
    if |s| == 0 then [""]
    else
      var rest := Split(s[1..], sep);
      assert s == [s[0]] + s[1..];
      if s[0] == sep then [""] + rest
      else [[s[0]] + rest[0]] + rest[1..]
  }

  /** Where segment k starts in the joined string. */
  function Offset(segs: seq<string>, k: nat): (o: nat)
    requires k <= |segs|
  {
    TotalLength(segs[..k]) + k
  }

  lemma {:induction false} TotalLengthAppend(a: seq<string>, b: seq<string>)
    ensures TotalLength(a + b) == TotalLength(a) + TotalLength(b)
  {
    if a == [] {
      assert a + b == b;
    } else {
      assert (a + b)[1..] == a[1..] + b;
      TotalLengthAppend(a[1..], b);
    }
  }

  /** Consecutive segments are exactly one separator apart. */
  lemma OffsetStep(segs: seq<string>, k: nat)
    requires k < |segs|
    ensures Offset(segs, k + 1) == Offset(segs, k) + |segs[k]| + 1
  {
    assert segs[..k + 1] == segs[..k] + [segs[k]];
    TotalLengthAppend(segs[..k], [segs[k]]);
  }

  /** The layout of the joined string: every segment k appears, unchanged, at
      `Offset(segs, k)`; it is followed by a separator unless it is the last
      segment, in which case it ends the string. With `OffsetStep` this says
      the string is the segments in order with exactly one separator between
      consecutive segments and none after the last. */
  lemma {:induction false} JoinLayout(segs: seq<string>, sep: char, k: nat)
    requires k < |segs|
    ensures Offset(segs, k) + |segs[k]| <= |Join(segs, sep)|
    ensures k < |segs| - 1 ==> Offset(segs, k) + |segs[k]| < |Join(segs, sep)|
    ensures Join(segs, sep)[Offset(segs, k)..Offset(segs, k) + |segs[k]|] == segs[k]
    ensures k < |segs| - 1 ==> Join(segs, sep)[Offset(segs, k) + |segs[k]|] == sep
    ensures k == |segs| - 1 ==> Offset(segs, k) + |segs[k]| == |Join(segs, sep)|
  {
    var j := Join(segs, sep);
    if k == 0 {
      assert segs[..0] == [];
      if |segs| > 1 {
        assert j == segs[0] + [sep] + Join(segs[1..], sep);
      }
    } else {
      var tail := segs[1..];
      JoinLayout(tail, sep, k - 1);
      assert segs[..k] == [segs[0]] + tail[..k - 1];
      TotalLengthAppend([segs[0]], tail[..k - 1]);
      assert [segs[0]][1..] == [];
      assert Offset(segs, k) == |segs[0]| + 1 + Offset(tail, k - 1);
      assert j == segs[0] + [sep] + Join(tail, sep);
      assert tail[k - 1] == segs[k];
    }
  }

  /** Appending one segment: the step the package's join loop takes. */
  lemma {:induction false} JoinSnoc(segs: seq<string>, x: string, sep: char)
    requires |segs| > 0
    ensures Join(segs + [x], sep) == Join(segs, sep) + [sep] + x
  {
    if |segs| == 1 {
      assert (segs + [x])[1..] == [x];
    } else {
      assert (segs + [x])[1..] == segs[1..] + [x];
      JoinSnoc(segs[1..], x, sep);
    }
  }

  /** A string without the separator is a single piece. */
  lemma {:induction false} SplitWithoutSeparator(a: string, sep: char)
    requires sep !in a
    ensures Split(a, sep) == [a]
  {
    if |a| > 0 {
      assert sep !in a[1..] by {
        assert forall i :: 0 <= i < |a[1..]| ==> a[1..][i] == a[i + 1];
      }
      SplitWithoutSeparator(a[1..], sep);
      assert a[0] != sep;
      assert [a[0]] + a[1..] == a;
    }
  }

  /** A separator-free piece followed by a separator splits off first. */
  lemma {:induction false} SplitAfterPiece(a: string, rest: string, sep: char)
    requires sep !in a
    ensures Split(a + [sep] + rest, sep) == [a] + Split(rest, sep)
  {
    var s := a + [sep] + rest;
    if |a| == 0 {
      assert s == [sep] + rest;
      assert s[1..] == rest;
    } else {
      assert s[1..] == a[1..] + [sep] + rest;
      assert sep !in a[1..] by {
        assert forall i :: 0 <= i < |a[1..]| ==> a[1..][i] == a[i + 1];
      }
      SplitAfterPiece(a[1..], rest, sep);
      assert [s[0]] + a[1..] == a;
    }
  }

  /** Round trip: splitting a joined well-formed name gives the name back. */
  lemma {:induction false} SplitJoin(segs: seq<string>, sep: char)
    requires WellFormed(segs, sep)
    ensures Split(Join(segs, sep), sep) == segs
  {
    assert sep !in segs[0];
    if |segs| == 1 {
      SplitWithoutSeparator(segs[0], sep);
    } else {
      var tail := segs[1..];
      assert NoSeparator(tail, sep) by {
        assert forall i :: 0 <= i < |tail| ==> tail[i] == segs[i + 1];
      }
      SplitJoin(tail, sep);
      SplitAfterPiece(segs[0], Join(tail, sep), sep);
      assert [segs[0]] + tail == segs;
    }
  }

  /** Joining a first segment in front of a non-empty rest. */
  lemma JoinCons(x: string, rest: seq<string>, sep: char)
    requires |rest| > 0
    ensures Join([x] + rest, sep) == x + [sep] + Join(rest, sep)
  {
    assert ([x] + rest)[1..] == rest;
  }

  /** Splitting a string that starts with a character other than the
      separator: that character begins the first piece. */
  lemma SplitOther(s: string, sep: char)
    requires |s| > 0 && s[0] != sep
    ensures |Split(s, sep)| == |Split(s[1..], sep)|
    ensures Split(s, sep)[0] == [s[0]] + Split(s[1..], sep)[0]
    ensures Split(s, sep)[1..] == Split(s[1..], sep)[1..]
  {
  }

  /** Round trip the other way: joining the pieces of any string gives the
      string back. */
  lemma {:induction false} JoinSplit(s: string, sep: char)
    ensures Join(Split(s, sep), sep) == s
  {
    if |s| > 0 {
      var rest := Split(s[1..], sep);
      JoinSplit(s[1..], sep);
      assert s == [s[0]] + s[1..];
      if s[0] == sep {
        assert Split(s, sep) == [""] + rest;
        JoinCons("", rest, sep);
      } else {
        var r := Split(s, sep);
        SplitOther(s, sep);
        if |rest| == 1 {
          assert r == [[s[0]] + rest[0]];
        } else {
          assert r == [r[0]] + r[1..];
          JoinCons(r[0], r[1..], sep);
          JoinCons(rest[0], rest[1..], sep);
          assert rest == [rest[0]] + rest[1..];
        }
      }
    }
  }

  /** Distinct well-formed names are written as distinct strings. */
  lemma JoinInjective(a: seq<string>, b: seq<string>, sep: char)
    requires WellFormed(a, sep) && WellFormed(b, sep)
    requires Join(a, sep) == Join(b, sep)
    ensures a == b
  {
    SplitJoin(a, sep);
    SplitJoin(b, sep);
  }
}
