/**
 * The text side of tagging: the comma-separated tag field of the new-post and
 * edit forms, Python's `str.split(',')` and `str.strip()`, and the
 * `', '.join(...)` the edit form uses to show a post's current tags.
 */
module TagText {
  import opened ForumTypes

  /** Python's `s.split(sep)`: the pieces between separators, always at least one. */
  function Split(s: string, sep: char): (r: seq<string>)
    ensures |r| >= 1
  {
    if s == [] then [""]
    else if s[0] == sep then [""] + Split(s[1..], sep)
    else
      var rest := Split(s[1..], sep);
      [[s[0]] + rest[0]] + rest[1..]
  }

  /** `sep.join(pieces)`. */
  function Join(pieces: seq<string>, sep: string): string
  {
    if pieces == [] then ""
    else if |pieces| == 1 then pieces[0]
    else pieces[0] + sep + Join(pieces[1..], sep)
  }

  function TrimStart(s: string): string
  {
    if s != [] && IsSpace(s[0]) then TrimStart(s[1..]) else s
  }

  function TrimEnd(s: string): string
  {
    if s != [] && IsSpace(s[|s| - 1]) then TrimEnd(s[..|s| - 1]) else s
  }

  /** Python's `s.strip()`: drops leading and trailing whitespace. */
  function Strip(s: string): string
  {
    TrimEnd(TrimStart(s))
  }

  /** A name as it can come out of the tag field: non-empty, no comma, no outer whitespace. */
  predicate CleanName(n: string)
  {
    n != [] && ',' !in n && !IsSpace(n[0]) && !IsSpace(n[|n| - 1])
  }

  /** `[t.strip() for t in pieces if t.strip()]`. */
  function StripAll(pieces: seq<string>): seq<string>
  {
    if pieces == [] then []
    else if Strip(pieces[0]) == [] then StripAll(pieces[1..])
    else [Strip(pieces[0])] + StripAll(pieces[1..])
  }

  /** The tag names of a form's comma-separated tag field. */
  function ParseTagNames(field: string): seq<string>
  {
    StripAll(Split(field, ','))
  }

  // ---------------------------------------------------------------------------

  /** No piece of a split holds the separator. */
  lemma {:induction false} SplitPiecesLackSep(s: string, sep: char)
    ensures forall k :: 0 <= k < |Split(s, sep)| ==> sep !in Split(s, sep)[k]
  {
    if s != [] {
      SplitPiecesLackSep(s[1..], sep);
      var rest := Split(s[1..], sep);
      var r := Split(s, sep);
      if s[0] == sep {
        forall k | 1 <= k < |r| ensures sep !in r[k] {
          assert r[k] == rest[k - 1];
        }
      } else {
        forall k | 0 <= k < |r| ensures sep !in r[k] {
          if k > 0 {
            assert r[k] == rest[k];
          } else {
            assert sep !in rest[0];
          }
        }
      }
    }
  }

  /** Trimming the front drops a run of leading whitespace and keeps a suffix that does not start with whitespace. */
  lemma {:induction false} TrimStartSuffix(s: string)
    ensures |TrimStart(s)| <= |s| && TrimStart(s) == s[|s| - |TrimStart(s)|..]
    ensures forall k :: 0 <= k < |s| - |TrimStart(s)| ==> IsSpace(s[k])
    ensures TrimStart(s) == [] || !IsSpace(TrimStart(s)[0])
  {
    if s != [] && IsSpace(s[0]) {
      TrimStartSuffix(s[1..]);
      forall k | 1 <= k < |s| - |TrimStart(s)| ensures IsSpace(s[k]) {
        assert s[k] == s[1..][k - 1];
      }
    }
  }

  /** Trimming the back drops a run of trailing whitespace and keeps a prefix that does not end with whitespace. */
  lemma {:induction false} TrimEndPrefix(s: string)
    ensures |TrimEnd(s)| <= |s| && TrimEnd(s) == s[..|TrimEnd(s)|]
    ensures forall k :: |TrimEnd(s)| <= k < |s| ==> IsSpace(s[k])
    ensures TrimEnd(s) == [] || !IsSpace(TrimEnd(s)[|TrimEnd(s)| - 1])
  {
    if s != [] && IsSpace(s[|s| - 1]) {
      TrimEndPrefix(s[..|s| - 1]);
      forall k | |TrimEnd(s)| <= k < |s| - 1 ensures IsSpace(s[k]) {
        assert s[k] == s[..|s| - 1][k];
      }
    }
  }

  /**
   * Stripping keeps exactly the stretch of `s` between its leading and its
   * trailing whitespace, and that stretch neither starts nor ends with whitespace.
   */
  lemma StripIsClean(s: string)
    ensures Strip(s) == [] || (!IsSpace(Strip(s)[0]) && !IsSpace(Strip(s)[|Strip(s)| - 1]))
    ensures exists i, j :: 0 <= i <= j <= |s| && Strip(s) == s[i..j]
              && (forall k :: 0 <= k < i ==> IsSpace(s[k])) && (forall k :: j <= k < |s| ==> IsSpace(s[k]))
    ensures forall c :: c in Strip(s) ==> c in s
  {
    var t := TrimStart(s);
    var r := TrimEnd(t);
    TrimStartSuffix(s);
    TrimEndPrefix(t);
    if r != [] {
      assert r[0] == t[0];
    }
    var i := |s| - |t|;
    var j := i + |r|;
    assert r == s[i..j];
    forall k | j <= k < |s| ensures IsSpace(s[k]) {
      assert s[k] == t[k - i];
    }
    forall c | c in r ensures c in s {
      var k :| 0 <= k < |r| && r[k] == c;
      assert s[i + k] == c;
    }
  }

  /** The two blank tests agree: `s.strip()` is empty exactly when `s` holds only whitespace. */
  lemma StripEmptyIffBlank(s: string)
    ensures Strip(s) == [] <==> !HasText(s)
  {
    StripIsClean(s);
    var i, j :| 0 <= i <= j <= |s| && Strip(s) == s[i..j]
      && (forall k :: 0 <= k < i ==> IsSpace(s[k])) && (forall k :: j <= k < |s| ==> IsSpace(s[k]));
    if HasText(s) {
      var m :| 0 <= m < |s| && !IsSpace(s[m]);
      assert i <= m < j;
      assert Strip(s)[m - i] == s[m];
    }
    if Strip(s) != [] {
      assert s[i] == Strip(s)[0];
    }
  }

  /** Every parsed name is non-empty, has no outer whitespace and no comma. */
  lemma {:induction false} ParsedNamesAreClean(pieces: seq<string>)
    requires forall k :: 0 <= k < |pieces| ==> ',' !in pieces[k]
    ensures forall k :: 0 <= k < |StripAll(pieces)| ==> CleanName(StripAll(pieces)[k])
  {
    if pieces != [] {
      var rest := StripAll(pieces[1..]);
      ParsedNamesAreClean(pieces[1..]);
      var head := Strip(pieces[0]);
      if head != [] {
        StripIsClean(pieces[0]);
        assert ',' !in head by {
          assert ',' !in pieces[0];
        }
        var r := [head] + rest;
        assert StripAll(pieces) == r;
        forall k | 0 <= k < |r| ensures CleanName(r[k]) {
          if k > 0 {
            assert r[k] == rest[k - 1];
          }
        }
      }
    }
  }

  lemma ParseTagNamesClean(field: string)
    ensures forall k :: 0 <= k < |ParseTagNames(field)| ==> CleanName(ParseTagNames(field)[k])
  {
    SplitPiecesLackSep(field, ',');
    ParsedNamesAreClean(Split(field, ','));
  }

  /** A piece without a separator splits to itself. */
  lemma {:induction false} SplitNoSep(a: string, sep: char)
    requires sep !in a
    ensures Split(a, sep) == [a]
  {
    if a != [] {
      SplitNoSep(a[1..], sep);
      assert [a[0]] + a[1..] == a;
    }
  }

  /** Splitting at the first separator. */
  lemma {:induction false} SplitAtSep(a: string, sep: char, b: string)
    requires sep !in a
    ensures Split(a + [sep] + b, sep) == [a] + Split(b, sep)
  {
    if a == [] {
      assert a + [sep] + b == [sep] + b;
      assert ([sep] + b)[1..] == b;
    } else {
      var s := a + [sep] + b;
      assert s[0] == a[0] && s[1..] == a[1..] + [sep] + b;
      SplitAtSep(a[1..], sep, b);
      assert [a[0]] + a[1..] == a;
    }
  }

  /** Leading blanks before a clean name are what strip removes. */
  lemma {:induction false} StripPadded(w: string, n: string)
    requires forall k :: 0 <= k < |w| ==> IsSpace(w[k])
    requires CleanName(n)
    ensures Strip(w + n) == n
  {
    if w == [] {
      assert w + n == n;
      assert TrimStart(n) == n;
    } else {
      assert (w + n)[1..] == w[1..] + n;
      StripPadded(w[1..], n);
    }
  }

  /** The pieces a `', '`-joined field splits into after its first comma: each name behind one space. */
  function Spaced(names: seq<string>): (r: seq<string>)
    ensures |r| == |names|
    ensures forall k :: 0 <= k < |names| ==> r[k] == " " + names[k]
  {
    seq(|names|, k requires 0 <= k < |names| => " " + names[k])
  }

  /** A clean name behind one space has no comma. */
  lemma SpacedNoComma(n: string)
    requires CleanName(n)
    ensures ',' !in " " + n
  {
    assert " " + n == [' '] + n;
  }

  /** `" " + ', '.join(names)` splits at its commas into the spaced names. */
  lemma {:induction false} SplitSpacedJoin(names: seq<string>)
    requires |names| >= 1
    requires forall k :: 0 <= k < |names| ==> CleanName(names[k])
    ensures Split(" " + Join(names, ", "), ',') == Spaced(names)
    decreases |names|
  {
    SpacedNoComma(names[0]);
    if |names| == 1 {
      SplitNoSep(" " + names[0], ',');
    } else {
      var tail := Join(names[1..], ", ");
      assert Join(names, ", ") == names[0] + ", " + tail;
      assert " " + Join(names, ", ") == (" " + names[0]) + [','] + (" " + tail);
      SplitAtSep(" " + names[0], ',', " " + tail);
      SplitSpacedJoin(names[1..]);
      assert Spaced(names) == [" " + names[0]] + Spaced(names[1..]);
    }
  }

  /** Two or more names: the split stops at the first comma, the rest are spaced. */
  lemma SplitJoinMany(names: seq<string>)
    requires |names| >= 2
    requires forall k :: 0 <= k < |names| ==> CleanName(names[k])
    ensures Split(Join(names, ", "), ',') == [names[0]] + Spaced(names[1..])
  {
    var tail := Join(names[1..], ", ");
    JoinAtComma(names);
    SplitAtSep(names[0], ',', " " + tail);
    SplitSpacedJoin(names[1..]);
  }

  /** `', '.join(names)` of two or more names: the first name, a comma, then the spaced rest. */
  lemma JoinAtComma(names: seq<string>)
    requires |names| >= 2
    ensures Join(names, ", ") == names[0] + [','] + (" " + Join(names[1..], ", "))
  {
    var tail := Join(names[1..], ", ");
    assert Join(names, ", ") == names[0] + ", " + tail;
    assert ", " == [','] + " ";
    assert names[0] + ", " + tail == names[0] + [','] + (" " + tail);
  }

  /** `', '.join(names)` splits into the first name followed by the spaced rest. */
  lemma SplitJoin(names: seq<string>)
    requires |names| >= 1
    requires forall k :: 0 <= k < |names| ==> CleanName(names[k])
    ensures Split(Join(names, ", "), ',') == [names[0]] + Spaced(names[1..])
  {
    if |names| == 1 {
      SplitNoSep(names[0], ',');
      assert Spaced(names[1..]) == [];
    } else {
      SplitJoinMany(names);
    }
  }

  /** Stripping the spaced names gives the names back. */
  lemma {:induction false} StripAllSpaced(names: seq<string>)
    requires forall k :: 0 <= k < |names| ==> CleanName(names[k])
    ensures StripAll(Spaced(names)) == names
    decreases |names|
  {
    if names != [] {
      var sp := Spaced(names);
      assert forall k :: 0 <= k < |" "| ==> IsSpace(" "[k]) by {
        assert " "[0] == ' ';
      }
      StripPadded(" ", names[0]);
      assert sp[1..] == Spaced(names[1..]);
      StripAllSpaced(names[1..]);
      assert names == [names[0]] + names[1..];
    }
  }

  /** Stripping the first name followed by the spaced rest gives the names back. */
  lemma StripAllHeadSpaced(names: seq<string>)
    requires |names| >= 1
    requires forall k :: 0 <= k < |names| ==> CleanName(names[k])
    ensures StripAll([names[0]] + Spaced(names[1..])) == names
  {
    var pieces := [names[0]] + Spaced(names[1..]);
    StripClean(names[0]);
    StripAllSpaced(names[1..]);
    assert pieces[1..] == Spaced(names[1..]);
    assert names == [names[0]] + names[1..];
  }

  /** A clean name strips to itself. */
  lemma StripClean(n: string)
    requires CleanName(n)
    ensures Strip(n) == n
  {
    assert "" + n == n;
    StripPadded("", n);
  }

  /**
   * The edit form shows a post's tags as `', '.join(names)`; submitting that
   * field unchanged parses back to the very same names.
   */
  lemma ParseOfJoin(names: seq<string>)
    requires forall k :: 0 <= k < |names| ==> CleanName(names[k])
    ensures ParseTagNames(Join(names, ", ")) == names
  {
    if names == [] {
      assert Split("", ',') == [""];
      assert StripAll([""]) == StripAll([]);
    } else {
      SplitJoin(names);
      StripAllHeadSpaced(names);
    }
  }

  /** Joining the pieces of a split with the same separator gives back the text. */
  lemma {:induction false} JoinOfSplit(s: string, sep: char)
    ensures Join(Split(s, sep), [sep]) == s
  {
    if s != [] {
      JoinOfSplit(s[1..], sep);
      var rest := Split(s[1..], sep);
      if s[0] == sep {
        assert Split(s, sep) == [""] + rest;
        assert s == [sep] + s[1..];
      } else {
        assert Split(s, sep) == [[s[0]] + rest[0]] + rest[1..];
        if |rest| == 1 {
          assert s == [s[0]] + rest[0];
        } else {
          assert Join(rest, [sep]) == rest[0] + [sep] + Join(rest[1..], [sep]);
          assert s == [s[0]] + s[1..];
        }
      }
    }
  }
}
