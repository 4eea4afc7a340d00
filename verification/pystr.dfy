/** The few Python `str` methods the extraction and download scripts rely on:
    `replace` (no count), `split` with an explicit separator, the matching
    `join`, and `strip` with no argument. */
module PyStr {

  /** `pat` occurs somewhere in `s` (a substring, possibly at the very end). */
  predicate Occurs(pat: string, s: string) {
    exists i :: 0 <= i <= |s| && pat <= s[i..]
  }

  /** `s.replace(pat, rep)`: every non-overlapping occurrence of `pat`, found
      scanning left to right, is replaced by `rep`. An empty `pat` matches
      before every character and at the end, as in Python. */
  function Replace(s: string, pat: string, rep: string): (r: string)
    ensures |pat| == 0 ==> |r| == |s| + (|s| + 1) * |rep|
    decreases |s|
  {
    if |pat| == 0 then
      if |s| == 0 then rep else rep + [s[0]] + Replace(s[1..], pat, rep)
    else if pat <= s then rep + Replace(s[|pat|..], pat, rep)
    else if |s| == 0 then s
    else [s[0]] + Replace(s[1..], pat, rep)
  }

  /** `s.split(sep)` for a non-empty separator: the pieces between the
      non-overlapping occurrences of `sep`, found left to right. */
  function Split(s: string, sep: string): (parts: seq<string>)
    requires |sep| > 0
    ensures |parts| >= 1
    decreases |s|
  {
    if sep <= s then [[]] + Split(s[|sep|..], sep)
    else if |s| == 0 then [[]]
    else
      var rest := Split(s[1..], sep);
      [[s[0]] + rest[0]] + rest[1..]
  }

  /** `sep.join(parts)` for a non-empty list of pieces. */
  function Join(parts: seq<string>, sep: string): string
    requires |parts| >= 1
    decreases |parts|
  {
    if |parts| == 1 then parts[0] else parts[0] + sep + Join(parts[1..], sep)
  }

  /** Splitting on `sep` and joining back with `sep` restores the string:
      the pieces of `Split` together with the separators cover `s` exactly. */
  lemma {:induction false} JoinSplit(s: string, sep: string)
    requires |sep| > 0
    ensures Join(Split(s, sep), sep) == s
    decreases |s|
  {
    if sep <= s {
      JoinSplit(s[|sep|..], sep);
      SplitAtSeparator(s, sep);
      JoinEmptyFirst(Split(s[|sep|..], sep), sep);
      assert s == sep + s[|sep|..];
    } else if |s| > 0 {
      JoinSplit(s[1..], sep);
      SplitPastChar(s, sep);
      JoinConsFirst(s[0], Split(s[1..], sep), sep);
      assert s == [s[0]] + s[1..];
    }
  }

  /** Prepending a character to the first piece prepends it to the joined string. */
  lemma {:induction false} JoinConsFirst(c: char, parts: seq<string>, sep: string)
    requires |parts| >= 1
    ensures Join([[c] + parts[0]] + parts[1..], sep) == [c] + Join(parts, sep)
  {
    var parts' := [[c] + parts[0]] + parts[1..];
    assert parts'[1..] == parts[1..];
    if |parts| > 1 {
      calc {
        Join(parts', sep);
        ([c] + parts[0]) + sep + Join(parts[1..], sep);
        [c] + (parts[0] + sep + Join(parts[1..], sep));
      }
    }
  }

  /** A leading separator contributes an empty first piece. */
  lemma SplitAtSeparator(s: string, sep: string)
    requires |sep| > 0 && sep <= s
    ensures Split(s, sep) == [[]] + Split(s[|sep|..], sep)
  {
  }

  /** Joining an empty first piece with the rest starts with the separator. */
  lemma {:induction false} JoinEmptyFirst(rest: seq<string>, sep: string)
    requires |rest| >= 1
    ensures Join([[]] + rest, sep) == sep + Join(rest, sep)
  {
    var parts := [[]] + rest;
    assert parts[1..] == rest;
    assert parts[0] == [];
  }

  /** A leading character that does not start a separator joins the first piece. */
  lemma SplitPastChar(s: string, sep: string)
    requires |sep| > 0 && !(sep <= s) && |s| > 0
    ensures Split(s, sep) == [[s[0]] + Split(s[1..], sep)[0]] + Split(s[1..], sep)[1..]
  {
  }

  /** The first piece of a split is a prefix of the string. */
  lemma {:induction false} SplitFirstPrefix(s: string, sep: string)
    requires |sep| > 0
    ensures Split(s, sep)[0] <= s
    decreases |s|
  {
    if !(sep <= s) && |s| > 0 {
      SplitFirstPrefix(s[1..], sep);
      SplitPastChar(s, sep);
    }
  }

  /** A first piece `[s[0]] + a` avoids `sep` when `a` does and `s`, which
      the piece is a prefix of, does not start with `sep`. */
  lemma {:induction false} FirstPieceAvoidsSep(s: string, sep: string, a: string)
    requires |sep| > 0 && |s| > 0 && !(sep <= s)
    requires a <= s[1..] && !Occurs(sep, a)
    ensures !Occurs(sep, [s[0]] + a)
  {
    var first := [s[0]] + a;
    forall i | 0 <= i <= |first|
      ensures !(sep <= first[i..])
    {
      if i == 0 {
        assert first <= s;
      } else {
        assert first[i..] == a[i - 1..];
      }
    }
  }

  /** No piece of a split contains the separator: every occurrence of `sep`
      was cut out. */
  lemma {:induction false} SplitPiecesAvoidSep(s: string, sep: string)
    requires |sep| > 0
    ensures forall k :: 0 <= k < |Split(s, sep)| ==> !Occurs(sep, Split(s, sep)[k])
    decreases |s|
  {
    var parts := Split(s, sep);
    if sep <= s {
      SplitPiecesAvoidSep(s[|sep|..], sep);
      SplitAtSeparator(s, sep);
      assert !Occurs(sep, parts[0]) by {
        assert parts[0] == [];
      }
      assert forall k :: 1 <= k < |parts| ==> parts[k] == Split(s[|sep|..], sep)[k - 1];
    } else if |s| > 0 {
      var rest := Split(s[1..], sep);
      SplitPiecesAvoidSep(s[1..], sep);
      SplitPastChar(s, sep);
      SplitFirstPrefix(s[1..], sep);
      FirstPieceAvoidsSep(s, sep, rest[0]);
      assert forall k :: 1 <= k < |parts| ==> parts[k] == rest[k];
    }
  }

  /** Python's identity `s.replace(pat, rep) == rep.join(s.split(pat))`:
      replacing is splitting at the same occurrences and re-joining with `rep`. */
  lemma {:induction false} ReplaceIsJoinOfSplit(s: string, pat: string, rep: string)
    requires |pat| > 0
    ensures Replace(s, pat, rep) == Join(Split(s, pat), rep)
    decreases |s|
  {
    if pat <= s {
      ReplaceIsJoinOfSplit(s[|pat|..], pat, rep);
      SplitAtSeparator(s, pat);
      JoinEmptyFirst(Split(s[|pat|..], pat), rep);
    } else if |s| > 0 {
      ReplaceIsJoinOfSplit(s[1..], pat, rep);
      SplitPastChar(s, pat);
      JoinConsFirst(s[0], Split(s[1..], pat), rep);
    }
  }

  /** Replacing a pattern by itself changes nothing (for every pattern,
      including the empty one). */
  lemma {:induction false} ReplaceBySelf(s: string, pat: string)
    ensures Replace(s, pat, pat) == s
    decreases |s|
  {
    if |pat| == 0 {
      if |s| > 0 {
        ReplaceBySelf(s[1..], pat);
        assert s == [s[0]] + s[1..];
      }
    } else if pat <= s {
      ReplaceBySelf(s[|pat|..], pat);
      assert s == pat + s[|pat|..];
    } else if |s| > 0 {
      ReplaceBySelf(s[1..], pat);
      assert s == [s[0]] + s[1..];
    }
  }

  /** A string in which the (non-empty) pattern does not occur is left as it is. */
  lemma {:induction false} ReplaceAbsent(s: string, pat: string, rep: string)
    requires |pat| > 0
    requires !Occurs(pat, s)
    ensures Replace(s, pat, rep) == s
    decreases |s|
  {
    assert s[0..] == s;
    assert !(pat <= s);
    if |s| > 0 {
      assert !Occurs(pat, s[1..]) by {
        forall i | 0 <= i <= |s[1..]|
          ensures !(pat <= s[1..][i..])
        {
          assert s[1..][i..] == s[i + 1..];
        }
      }
      ReplaceAbsent(s[1..], pat, rep);
      assert s == [s[0]] + s[1..];
    }
  }

  /** Split on a one-character separator that does not occur in the first
      piece: that piece comes out first, unchanged. */
  lemma {:induction false} SplitAtFirstSeparator(a: string, c: char, b: string)
    requires c !in a
    ensures Split(a + [c] + b, [c]) == [a] + Split(b, [c])
    decreases |a|
  {
    var s := a + [c] + b;
    if |a| == 0 {
      assert s == [c] + b;
      assert [c] <= s;
      assert s[1..] == b;
    } else {
      assert s[0] == a[0] && a[0] in a;
      assert s[1..] == a[1..] + [c] + b;
      SplitAtFirstSeparator(a[1..], c, b);
      assert [a[0]] + a[1..] == a;
    }
  }

  /** A string free of the one-character separator is a single piece. */
  lemma {:induction false} SplitWithoutSeparator(a: string, c: char)
    requires c !in a
    ensures Split(a, [c]) == [a]
    decreases |a|
  {
    if |a| > 0 {
      assert a[0] in a;
      SplitWithoutSeparator(a[1..], c);
      assert [a[0]] + a[1..] == a;
    }
  }

  /** Joining pieces free of a one-character separator and splitting on it
      again gives the pieces back. */
  lemma {:induction false} SplitJoin(parts: seq<string>, c: char)
    requires |parts| >= 1
    requires forall i :: 0 <= i < |parts| ==> c !in parts[i]
    ensures Split(Join(parts, [c]), [c]) == parts
    decreases |parts|
  {
    if |parts| == 1 {
      SplitWithoutSeparator(parts[0], c);
    } else {
      SplitJoin(parts[1..], c);
      SplitAtFirstSeparator(parts[0], c, Join(parts[1..], [c]));
      assert parts == [parts[0]] + parts[1..];
    }
  }

  /** The characters `str.strip()` removes (the ASCII ones). */
  predicate IsSpace(c: char) {
    c == ' ' || c == '\t' || c == '\n' || c == '\r' || c == '\U{000B}' || c == '\U{000C}'
    || ('\U{001C}' <= c <= '\U{001F}')
  }

  function StripLeft(s: string): (r: string)
    ensures |r| <= |s| && r == s[|s| - |r|..]
    ensures |r| > 0 ==> !IsSpace(r[0])
    ensures forall i :: 0 <= i < |s| - |r| ==> IsSpace(s[i])
    decreases |s|
  {
    if |s| > 0 && IsSpace(s[0]) then StripLeft(s[1..]) else s
  }

  function StripRight(s: string): (r: string)
    ensures |r| <= |s| && r == s[..|r|]
    ensures |r| > 0 ==> !IsSpace(r[|r| - 1])
    ensures forall i :: |r| <= i < |s| ==> IsSpace(s[i])
    decreases |s|
  {
    if |s| > 0 && IsSpace(s[|s| - 1]) then StripRight(s[..|s| - 1]) else s
  }

  /** `r` is `s` with only whitespace cut off before position `lo` and after `r`. */
  predicate TrimmedAt(s: string, r: string, lo: int) {
    && 0 <= lo <= |s| - |r|
    && s[lo..lo + |r|] == r
    && (forall i :: 0 <= i < lo ==> IsSpace(s[i]))
    && (forall i :: lo + |r| <= i < |s| ==> IsSpace(s[i]))
  }

  /** `s.strip()`: leading and trailing whitespace removed, nothing else. */
  function Strip(s: string): (r: string)
    ensures |r| > 0 ==> !IsSpace(r[0]) && !IsSpace(r[|r| - 1])
    ensures exists lo :: TrimmedAt(s, r, lo)
  {
    var left := StripLeft(s);
    var r := StripRight(left);
    assert TrimmedAt(s, r, |s| - |left|);
    r
  }

  /** A string with no whitespace at either end is its own strip. */
  lemma {:induction false} StripUnchanged(s: string)
    requires |s| > 0 ==> !IsSpace(s[0]) && !IsSpace(s[|s| - 1])
    ensures Strip(s) == s
  {
  }
}
