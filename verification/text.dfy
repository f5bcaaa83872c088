/**
 The two string operations the converter calls: String.prototype.trim and
 String.prototype.split with a one-character separator.
 */
module Text {

  import opened Seqs

  /** The code points ECMAScript's trim removes: the WhiteSpace set (tab,
      vertical tab, form feed, space, no-break space, zero-width no-break
      space and the Unicode space separators) and the LineTerminator set
      (line feed, carriage return, line separator, paragraph separator). */
  const Whitespace: set<char> := {
      '\U{0009}', '\U{000A}', '\U{000B}', '\U{000C}', '\U{000D}', '\U{0020}',
      '\U{00A0}', '\U{1680}', '\U{2000}', '\U{2001}', '\U{2002}', '\U{2003}',
      '\U{2004}', '\U{2005}', '\U{2006}', '\U{2007}', '\U{2008}', '\U{2009}',
      '\U{200A}', '\U{2028}', '\U{2029}', '\U{202F}', '\U{205F}', '\U{3000}',
      '\U{FEFF}'
    }

  predicate IsWs(c: char) {
    c in Whitespace
  }

  predicate AllWs(s: string) {
    forall i :: 0 <= i < |s| ==> IsWs(s[i])
  }

  lemma AllWsAppend(a: string, b: string)
    ensures AllWs(a + b) <==> AllWs(a) && AllWs(b)
  {
    if AllWs(a + b) {
      forall i | 0 <= i < |a| ensures IsWs(a[i]) {
        assert a[i] == (a + b)[i];
      }
      forall i | 0 <= i < |b| ensures IsWs(b[i]) {
        assert b[i] == (a + b)[|a| + i];
      }
    }
    if AllWs(a) && AllWs(b) {
      forall i | 0 <= i < |a + b| ensures IsWs((a + b)[i]) {
        if i < |a| {
          assert (a + b)[i] == a[i];
        } else {
          assert (a + b)[i] == b[i - |a|];
        }
      }
    }
  }

  /** Joining all-whitespace parts with a whitespace separator gives an
      all-whitespace string. */
  lemma {:induction false} AllWsJoin(parts: seq<string>, sep: string)
    requires forall k :: 0 <= k < |parts| ==> AllWs(parts[k])
    requires AllWs(sep)
    ensures AllWs(Join(parts, sep))
  {
    if |parts| > 1 {
      AllWsJoin(parts[1..], sep);
      AllWsAppend(parts[0], sep);
      AllWsAppend(parts[0] + sep, Join(parts[1..], sep));
    }
  }

  /** The first position at or after i that holds no whitespace (|s| if
      there is none): where trimStart cuts. */
  function SkipWs(s: string, i: nat): (k: nat)
    requires i <= |s|
    ensures i <= k <= |s|
    ensures forall m :: i <= m < k ==> IsWs(s[m])
    ensures k == |s| || !IsWs(s[k])
    decreases |s| - i
  {
    if i < |s| && IsWs(s[i]) then SkipWs(s, i + 1) else i
  }

  /** The position just after the last non-whitespace code point before j
      (0 if there is none): where trimEnd cuts. */
  function SkipWsBack(s: string, j: nat): (k: nat)
    requires j <= |s|
    ensures k <= j
    ensures forall m :: k <= m < j ==> IsWs(s[m])
    ensures k == 0 || !IsWs(s[k - 1])
  {
    if j > 0 && IsWs(s[j - 1]) then SkipWsBack(s, j - 1) else j
  }

  /** String.prototype.trim: drops leading and trailing whitespace. */
  function Trim(s: string): (r: string)
    ensures |r| <= |s|
    ensures r == [] || (!IsWs(r[0]) && !IsWs(r[|r| - 1]))
    ensures r == [] <==> AllWs(s)
  {
    var i := SkipWs(s, 0);
    var j := SkipWsBack(s, |s|);
    if i < j then s[i..j] else []
  }

  /** Where the trimmed text sits in s: only whitespace before and after it. */
  lemma TrimSlice(s: string) returns (i: nat)
    ensures i + |Trim(s)| <= |s|
    ensures Trim(s) == s[i..i + |Trim(s)|]
    ensures forall m :: 0 <= m < i ==> IsWs(s[m])
    ensures forall m :: i + |Trim(s)| <= m < |s| ==> IsWs(s[m])
  {
    i := SkipWs(s, 0);
    var j := SkipWsBack(s, |s|);
    if i >= j {
      i := 0;
    }
  }

  /** Trim is the unique slice with only whitespace around it and none at
      its own ends: whatever slice meets that description is what Trim
      returns. */
  lemma TrimUnique(s: string, i: nat, j: nat)
    requires i <= j <= |s|
    requires forall m :: 0 <= m < i ==> IsWs(s[m])
    requires forall m :: j <= m < |s| ==> IsWs(s[m])
    requires i == j || (!IsWs(s[i]) && !IsWs(s[j - 1]))
    ensures Trim(s) == s[i..j]
  {
    if i == j {
      assert AllWs(s);
    } else {
      // The scans stop exactly at i and j: stopping earlier would meet
      // whitespace, stopping later would skip a non-whitespace end.
      assert SkipWs(s, 0) == i && SkipWsBack(s, |s|) == j;
    }
  }

  lemma TrimIdempotent(s: string)
    ensures Trim(Trim(s)) == Trim(s)
  {
    var r := Trim(s);
    TrimUnique(r, 0, |r|);
    assert r[0..|r|] == r;
  }

  /** String.prototype.split(sep) for a one-character separator: the
      pieces between separators, so n separators give n + 1 pieces and a
      separator at either end gives an empty piece there. */
  function Split(s: string, sep: char): (r: seq<string>)
    ensures |r| >= 1
    ensures forall k :: 0 <= k < |r| ==> sep !in r[k]
    decreases |s|
  {
    if s == [] then [[]]
    else
      var rest := Split(s[1..], sep);
      if s[0] == sep then [[]] + rest
      else [[s[0]] + rest[0]] + rest[1..]
  }

  /** n separators give n + 1 pieces. */
  lemma {:induction false} SplitCount(s: string, sep: char)
    ensures |Split(s, sep)| == multiset(s)[sep] + 1
  {
    if s != [] {
      SplitCount(s[1..], sep);
      assert s == [s[0]] + s[1..];
    }
  }

  lemma {:induction false} SplitWithoutSep(s: string, sep: char)
    requires sep !in s
    ensures Split(s, sep) == [s]
  {
    if s != [] {
      assert sep !in s[1..];
      SplitWithoutSep(s[1..], sep);
      assert s == [s[0]] + s[1..];
    }
  }

  /** The pieces of a + [sep] + b are those of a followed by those of b. */
  lemma {:induction false} SplitConcat(a: string, sep: char, b: string)
    ensures Split(a + [sep] + b, sep) == Split(a, sep) + Split(b, sep)
  {
    var s := a + [sep] + b;
    if a == [] {
      assert s[1..] == b;
    } else {
      assert s[0] == a[0];
      assert s[1..] == a[1..] + [sep] + b;
      SplitConcat(a[1..], sep, b);
    }
  }

  /** The piece list with c appended to its last piece. */
  function ExtendLast(pieces: seq<string>, c: char): seq<string>
    requires |pieces| >= 1
  {
    pieces[..|pieces| - 1] + [pieces[|pieces| - 1] + [c]]
  }

  lemma SplitCons(d: char, s: string, sep: char)
    ensures Split([d] + s, sep) ==
      if d == sep then [[]] + Split(s, sep)
      else [[d] + Split(s, sep)[0]] + Split(s, sep)[1..]
  {
    assert ([d] + s)[0] == d;
    assert ([d] + s)[1..] == s;
  }

  lemma ExtendLastAfterEmpty(r: seq<string>, c: char)
    requires |r| >= 1
    ensures [[]] + ExtendLast(r, c) == ExtendLast([[]] + r, c)
  {
  }

  lemma ExtendLastGlue(d: char, r: seq<string>, c: char)
    requires |r| >= 1
    ensures [[d] + ExtendLast(r, c)[0]] + ExtendLast(r, c)[1..]
      == ExtendLast([[d] + r[0]] + r[1..], c)
  {
    var e := ExtendLast(r, c);
    if |r| == 1 {
      assert e == [r[0] + [c]];
      assert [d] + (r[0] + [c]) == ([d] + r[0]) + [c];
    } else {
      assert e[0] == r[0];
      assert e[1..] == r[1..|r| - 1] + [r[|r| - 1] + [c]];
    }
  }

  /** Appending one non-separator character extends the last piece. */
  lemma {:induction false} SplitSnoc(s: string, sep: char, c: char)
    requires c != sep
    ensures Split(s + [c], sep) == ExtendLast(Split(s, sep), c)
  {
    if s == [] {
      assert s + [c] == [c] + [];
      SplitCons(c, [], sep);
    } else {
      var d, s' := s[0], s[1..];
      assert s == [d] + s';
      assert s + [c] == [d] + (s' + [c]);
      SplitSnoc(s', sep, c);
      SplitCons(d, s' + [c], sep);
      SplitCons(d, s', sep);
      if d == sep {
        ExtendLastAfterEmpty(Split(s', sep), c);
      } else {
        ExtendLastGlue(d, Split(s', sep), c);
      }
    }
  }

  /** Appending a separator starts a new, empty piece. */
  lemma SplitSnocSep(s: string, sep: char)
    ensures Split(s + [sep], sep) == Split(s, sep) + [[]]
  {
    SplitConcat(s, sep, []);
    assert s + [sep] + [] == s + [sep];
  }

  /** Joining the pieces with the separator gives back the string. */
  lemma {:induction false} JoinSplit(s: string, sep: char)
    ensures Join(Split(s, sep), [sep]) == s
  {
    if s != [] {
      JoinSplit(s[1..], sep);
      var rest := Split(s[1..], sep);
      if s[0] == sep {
        assert Join([[]] + rest, [sep]) == [] + [sep] + Join(rest, [sep]);
      } else if |rest| == 1 {
        assert Split(s, sep) == [[s[0]] + rest[0]];
      } else {
        var parts := [[s[0]] + rest[0]] + rest[1..];
        assert parts[1..] == rest[1..];
        assert Join(rest, [sep]) == rest[0] + [sep] + Join(rest[1..], [sep]);
      }
    }
  }

  /** Splitting a join of separator-free parts gives back the parts. */
  lemma {:induction false} SplitJoin(parts: seq<string>, sep: char)
    requires |parts| >= 1
    requires forall k :: 0 <= k < |parts| ==> sep !in parts[k]
    ensures Split(Join(parts, [sep]), sep) == parts
  {
    if |parts| == 1 {
      SplitWithoutSep(parts[0], sep);
    } else {
      SplitJoin(parts[1..], sep);
      SplitWithoutSep(parts[0], sep);
      SplitConcat(parts[0], sep, Join(parts[1..], [sep]));
      assert parts[0] + [sep] + Join(parts[1..], [sep]) == Join(parts, [sep]);
      assert [parts[0]] + parts[1..] == parts;
    }
  }

  /** Every piece of an all-whitespace string is all whitespace. */
  lemma {:induction false} SplitAllWs(s: string, sep: char)
    requires AllWs(s)
    ensures forall k :: 0 <= k < |Split(s, sep)| ==> AllWs(Split(s, sep)[k])
  {
    if s != [] {
      assert AllWs(s[1..]) by {
        forall i | 0 <= i < |s| - 1 ensures IsWs(s[1..][i]) {
          assert s[1..][i] == s[i + 1];
        }
      }
      SplitAllWs(s[1..], sep);
      var rest := Split(s[1..], sep);
      if s[0] != sep {
        AllWsAppend([s[0]], rest[0]);
      }
    }
  }
}
