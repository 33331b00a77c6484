/** Splitting a string on a one-character separator, as JavaScript's
    `String.prototype.split(sep)` does, and joining the pieces back. */
module StringSplit {

  /** The pieces of `s` between occurrences of `sep`, in order. Like JavaScript,
      the empty string splits into one empty piece, and a leading, trailing or
      doubled separator yields an empty piece. */
  function Split(s: string, sep: char): (parts: seq<string>)
    ensures |parts| >= 1
    decreases |s|
  {
    if s == [] then [""]
    else
      var rest := Split(s[1..], sep);
      if s[0] == sep then [""] + rest
      else [[s[0]] + rest[0]] + rest[1..]
  }

  /** A split has more than one piece exactly when the string holds the separator. */
  lemma {:induction false} SplitCount(s: string, sep: char)
    ensures sep in s <==> |Split(s, sep)| >= 2
    decreases |s|
  {
    if s != [] {
      SplitCount(s[1..], sep);
      assert sep in s <==> s[0] == sep || sep in s[1..] by {
        assert s == [s[0]] + s[1..];
      }
    }
  }

  /** No piece of a split holds the separator. */
  lemma {:induction false} SplitPiecesLackSeparator(s: string, sep: char)
    ensures forall i :: 0 <= i < |Split(s, sep)| ==> sep !in Split(s, sep)[i]
    decreases |s|
  {
    if s != [] {
      SplitPiecesLackSeparator(s[1..], sep);
      var rest := Split(s[1..], sep);
      if s[0] != sep {
        assert sep !in [s[0]] + rest[0];
      }
    }
  }

  /** The pieces glued together with `sep` between neighbours. */
  function Join(parts: seq<string>, sep: char): string
  {
    if |parts| == 0 then ""
    else if |parts| == 1 then parts[0]
    else parts[0] + [sep] + Join(parts[1..], sep)
  }

  /** Joining the pieces of a split gives back the original string. */
  lemma {:induction false} JoinSplit(s: string, sep: char)
    ensures Join(Split(s, sep), sep) == s
    decreases |s|
  {
    if s != [] {
      var rest := Split(s[1..], sep);
      JoinSplit(s[1..], sep);
      if s[0] == sep {
        assert s == [sep] + s[1..];
      } else {
        assert s == [s[0]] + s[1..];
        if |rest| == 1 {
        } else {
          assert rest[1..][1..] == rest[2..];
          assert Join(rest, sep) == rest[0] + [sep] + Join(rest[1..], sep);
        }
      }
    }
  }

  /** A separator-free prefix merges into the first piece of what follows it. */
  lemma {:induction false} SplitPrefix(a: string, t: string, sep: char)
    requires sep !in a
    ensures Split(a + t, sep) == [a + Split(t, sep)[0]] + Split(t, sep)[1..]
    decreases |a|
  {
    if a != [] {
      var p := Split(t, sep);
      assert (a + t)[0] == a[0] && (a + t)[1..] == a[1..] + t;
      SplitPrefix(a[1..], t, sep);
      var rest := Split(a[1..] + t, sep);
      assert rest[0] == a[1..] + p[0] && rest[1..] == p[1..];
      assert [a[0]] + rest[0] == a + p[0];
    } else {
      var p := Split(t, sep);
      assert a + t == t;
      assert a + p[0] == p[0];
      assert p == [p[0]] + p[1..];
    }
  }

  /** Splitting pieces that were joined gives the pieces back, provided none of
      them holds the separator. */
  lemma {:induction false} SplitJoin(parts: seq<string>, sep: char)
    requires |parts| >= 1
    requires forall i :: 0 <= i < |parts| ==> sep !in parts[i]
    ensures Split(Join(parts, sep), sep) == parts
    decreases |parts|
  {
    if |parts| == 1 {
      SplitPrefix(parts[0], "", sep);
      assert parts[0] + "" == parts[0];
    } else {
      var tail := Join(parts[1..], sep);
      SplitJoin(parts[1..], sep);
      SplitPrefix(parts[0], [sep] + tail, sep);
      assert parts[0] + [sep] + tail == parts[0] + ([sep] + tail);
      assert ([sep] + tail)[1..] == tail;
      assert Split([sep] + tail, sep) == [""] + parts[1..];
      assert parts[0] + "" == parts[0];
      assert parts == [parts[0]] + parts[1..];
    }
  }

  /** A leading separator starts an empty first piece. */
  lemma SplitConsSeparator(t: string, sep: char)
    ensures Split([sep] + t, sep) == [""] + Split(t, sep)
  {
    assert ([sep] + t)[0] == sep && ([sep] + t)[1..] == t;
  }

  /** Any other leading character joins the first piece. */
  lemma SplitConsOther(c: char, t: string, sep: char)
    requires c != sep
    ensures Split([c] + t, sep) == [[c] + Split(t, sep)[0]] + Split(t, sep)[1..]
  {
    assert ([c] + t)[0] == c && ([c] + t)[1..] == t;
  }

  /** Splitting at one separator occurrence splits each side on its own. */
  lemma {:induction false} SplitConcat(a: string, b: string, sep: char)
    ensures Split(a + [sep] + b, sep) == Split(a, sep) + Split(b, sep)
    decreases |a|
  {
    if a == [] {
      assert a + [sep] + b == [sep] + b;
      SplitConsSeparator(b, sep);
    } else {
      SplitConcat(a[1..], b, sep);
      SplitConcatStep(a[0], a[1..] + [sep] + b, a[1..], Split(b, sep), sep);
      assert a == [a[0]] + a[1..];
      assert a + [sep] + b == [a[0]] + (a[1..] + [sep] + b);
    }
  }

  /** The inductive step of SplitConcat: when the pieces of `t` are those
      of `a` followed by `right`, a leading character keeps it so. */
  lemma SplitConcatStep(c: char, t: string, a: string, right: seq<string>, sep: char)
    requires Split(t, sep) == Split(a, sep) + right
    ensures Split([c] + t, sep) == Split([c] + a, sep) + right
  {
    if c != sep {
      SplitConsOther(c, t, sep);
      SplitConsOther(c, a, sep);
      PrependToFirst([c], Split(a, sep), right);
    } else {
      SplitConsSeparator(t, sep);
      SplitConsSeparator(a, sep);
      assert [""] + (Split(a, sep) + right) == ([""] + Split(a, sep)) + right;
    }
  }

  /** Extending the first piece of `left + right` extends that of `left`. */
  lemma PrependToFirst(prefix: string, left: seq<string>, right: seq<string>)
    requires |left| >= 1
    ensures [prefix + (left + right)[0]] + (left + right)[1..]
         == ([prefix + left[0]] + left[1..]) + right
  {
    assert (left + right)[0] == left[0];
    assert (left + right)[1..] == left[1..] + right;
  }
}
