/** Python string operations the auth code relies on: `x in s` on two strings,
    `s.split(sep)` and `sep.join(xs)` for a one-character separator. */
module Text {

  /** Python's `x in s` on strings: `x` occurs in `s` as a contiguous block.
      The empty string occurs in every string. */
  predicate IsSubstring(x: string, s: string): (r: bool)
    decreases |s|
    ensures r ==> |x| <= |s|
    ensures |x| == 0 ==> r
  {
    (|x| <= |s| && x == s[..|x|]) || (|s| > 0 && IsSubstring(x, s[1..]))
  }

  /** Python's `s.split(sep)`: the pieces between separators, so `"".split(",")`
      is `[""]` and `"a,,b".split(",")` is `["a", "", "b"]`. */
  function Split(s: string, sep: char): (r: seq<string>)
    ensures |r| >= 1
    ensures forall i :: 0 <= i < |r| ==> sep !in r[i]
  {
    if s == [] then [""]
    else
      var rest := Split(s[1..], sep);
      if s[0] == sep then [""] + rest else [[s[0]] + rest[0]] + rest[1..]
  }

  /** Python's `sep.join(xs)`: no pieces give "", and the result starts with
      the first piece. */
  function Join(xs: seq<string>, sep: char): (r: string)
    ensures xs == [] ==> r == ""
    ensures xs != [] ==> |r| >= |xs[0]| && r[..|xs[0]|] == xs[0]
  {
    if |xs| == 0 then ""
    else if |xs| == 1 then xs[0]
    else xs[0] + [sep] + Join(xs[1..], sep)
  }

  /** Joining the pieces of a split gives back the string. */
  lemma {:induction false} JoinSplit(s: string, sep: char)
    ensures Join(Split(s, sep), sep) == s
  {
    if s != [] {
      var rest := Split(s[1..], sep);
      JoinSplit(s[1..], sep);
      if s[0] == sep {
        assert Split(s, sep) == [""] + rest;
        assert ([""] + rest)[1..] == rest;
        assert Join([""] + rest, sep) == "" + [sep] + Join(rest, sep);
        assert s == [s[0]] + s[1..];
      } else {
        var first := [s[0]] + rest[0];
        assert Split(s, sep) == [first] + rest[1..];
        if |rest| == 1 {
          assert Join(rest, sep) == rest[0];
          assert s == [s[0]] + s[1..];
        } else {
          assert ([first] + rest[1..])[1..] == rest[1..];
          assert Join(rest, sep) == rest[0] + [sep] + Join(rest[1..], sep);
          assert s == [s[0]] + s[1..];
        }
      }
    }
  }

  /** Splitting `a + t`, where `a` holds no separator, glues `a` to the first piece of `t`. */
  lemma {:induction false} SplitPrefix(a: string, t: string, sep: char)
    requires sep !in a
    ensures Split(a + t, sep) == [a + Split(t, sep)[0]] + Split(t, sep)[1..]
  {
    var st := Split(t, sep);
    if a == [] {
      assert a + t == t;
      assert a + st[0] == st[0];
      assert [st[0]] + st[1..] == st;
    } else {
      assert a[0] in a;
      assert (a + t)[0] == a[0];
      assert (a + t)[1..] == a[1..] + t;
      SplitPrefix(a[1..], t, sep);
      var rest := Split(a[1..] + t, sep);
      assert rest == [a[1..] + st[0]] + st[1..];
      assert Split(a + t, sep) == [[a[0]] + rest[0]] + rest[1..];
      assert [a[0]] + (a[1..] + st[0]) == a + st[0];
    }
  }

  /** Splitting a join of separator-free pieces gives back the pieces. */
  lemma {:induction false} SplitJoin(xs: seq<string>, sep: char)
    requires |xs| >= 1
    requires forall i :: 0 <= i < |xs| ==> sep !in xs[i]
    ensures Split(Join(xs, sep), sep) == xs
  {
    if |xs| == 1 {
      SplitPrefix(xs[0], "", sep);
      assert xs[0] + "" == xs[0];
    } else {
      var j := Join(xs[1..], sep);
      SplitJoin(xs[1..], sep);
      SplitAfterSep(j, sep);
      SplitPrefix(xs[0], [sep] + j, sep);
      var st := Split([sep] + j, sep);
      assert st[0] == "" && st[1..] == xs[1..];
      assert xs[0] + st[0] == xs[0];
      assert Join(xs, sep) == xs[0] + ([sep] + j);
      assert xs == [xs[0]] + xs[1..];
    }
  }

  /** A leading separator splits off an empty first piece. */
  lemma SplitAfterSep(s: string, sep: char)
    ensures Split([sep] + s, sep) == [""] + Split(s, sep)
  {
    assert ([sep] + s)[0] == sep;
    assert ([sep] + s)[1..] == s;
  }

  /** `x` occupies the positions `k` to `k + |x|` of `s`. */
  predicate OccursAt(x: string, s: string, k: int)
  {
    0 <= k && k + |x| <= |s| && s[k..k + |x|] == x
  }

  /** `IsSubstring` agrees with the index-based reading: `x` occurs at some
      position of `s`. */
  lemma {:induction false} SubstringAt(x: string, s: string)
    decreases |s|
    ensures IsSubstring(x, s) <==> exists k :: OccursAt(x, s, k)
  {
    if |s| == 0 {
      if |x| == 0 {
        assert OccursAt(x, s, 0);
      }
    } else {
      SubstringAt(x, s[1..]);
      if IsSubstring(x, s) {
        if |x| <= |s| && x == s[..|x|] {
          assert OccursAt(x, s, 0);
        } else {
          var k :| OccursAt(x, s[1..], k);
          assert s[k + 1..k + 1 + |x|] == s[1..][k..k + |x|];
          assert OccursAt(x, s, k + 1);
        }
      }
      if exists k :: OccursAt(x, s, k) {
        var k :| OccursAt(x, s, k);
        if k == 0 {
          assert s[..|x|] == x;
        } else {
          assert s[1..][k - 1..k - 1 + |x|] == s[k..k + |x|];
          assert OccursAt(x, s[1..], k - 1);
        }
      }
    }
  }

  /** Every string is a block of itself. */
  lemma SubstringSelf(x: string)
    ensures IsSubstring(x, x)
  {
    assert x == x[..|x|];
  }

  /** A block of `s` is a block of `s + t`. */
  lemma {:induction false} SubstringOfPrefix(x: string, s: string, t: string)
    requires IsSubstring(x, s)
    ensures IsSubstring(x, s + t)
  {
    if |x| <= |s| && x == s[..|x|] {
      assert (s + t)[..|x|] == s[..|x|];
    } else {
      assert (s + t)[1..] == s[1..] + t;
      SubstringOfPrefix(x, s[1..], t);
    }
  }

  /** A block of `t` is a block of `s + t`. */
  lemma {:induction false} SubstringOfSuffix(x: string, s: string, t: string)
    requires IsSubstring(x, t)
    ensures IsSubstring(x, s + t)
    decreases |s|
  {
    if s == [] {
      assert s + t == t;
    } else {
      assert (s + t)[1..] == s[1..] + t;
      SubstringOfSuffix(x, s[1..], t);
    }
  }

  /** Every piece of a join occurs in the joined string. */
  lemma {:induction false} JoinContainsPieces(xs: seq<string>, sep: char, k: nat)
    requires k < |xs|
    ensures IsSubstring(xs[k], Join(xs, sep))
  {
    if |xs| == 1 {
      SubstringSelf(xs[0]);
    } else if k == 0 {
      SubstringSelf(xs[0]);
      SubstringOfPrefix(xs[0], xs[0], [sep] + Join(xs[1..], sep));
      assert Join(xs, sep) == xs[0] + ([sep] + Join(xs[1..], sep));
    } else {
      JoinContainsPieces(xs[1..], sep, k - 1);
      SubstringOfSuffix(xs[k], xs[0] + [sep], Join(xs[1..], sep));
    }
  }

  /** Every piece of `s.split(sep)` occurs in `s`. */
  lemma SplitPiecesInString(s: string, sep: char, x: string)
    requires x in Split(s, sep)
    ensures IsSubstring(x, s)
  {
    var k :| 0 <= k < |Split(s, sep)| && Split(s, sep)[k] == x;
    JoinContainsPieces(Split(s, sep), sep, k);
    JoinSplit(s, sep);
  }
}
