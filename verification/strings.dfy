/** The JavaScript string built-ins the pages rely on: `trim`, `split` with a
    string separator, and `Array.prototype.join`. Strings are sequences of
    characters; the JavaScript engine counts UTF-16 code units instead. */
module Strings {

  /** The characters `String.prototype.trim` removes: the ECMAScript
      WhiteSpace characters (tab, vertical tab, form feed, space, no-break
      space, byte order mark and the Unicode space separators) and the
      LineTerminator characters (line feed, carriage return, line and
      paragraph separators). */
  const WhiteSpace: set<char> := {
    '\t', '\n', '\U{B}', '\U{C}', '\r', ' ', '\U{A0}', '\U{1680}',
    '\U{2000}', '\U{2001}', '\U{2002}', '\U{2003}', '\U{2004}', '\U{2005}',
    '\U{2006}', '\U{2007}', '\U{2008}', '\U{2009}', '\U{200A}',
    '\U{2028}', '\U{2029}', '\U{202F}', '\U{205F}', '\U{3000}', '\U{FEFF}'
  }

  predicate IsSpace(c: char)
  {
    c in WhiteSpace
  }

  predicate IsBlank(s: string)
  {
    forall i :: 0 <= i < |s| ==> IsSpace(s[i])
  }

  /** Drops the leading white space (see TrimStartSpec). */
  function TrimStart(s: string): string
    decreases |s|
  {
    if s != [] && IsSpace(s[0]) then TrimStart(s[1..]) else s
  }

  /** The result of TrimStart is the longest suffix of `s` that does not start
      with a space character. */
  lemma {:induction false} TrimStartSpec(s: string)
    ensures var r := TrimStart(s);
      && |r| <= |s| && r == s[|s| - |r|..]
      && IsBlank(s[..|s| - |r|])
      && (r != [] ==> !IsSpace(r[0]))
    decreases |s|
  {
    if s != [] && IsSpace(s[0]) {
      TrimStartSpec(s[1..]);
      var r := TrimStart(s);
      assert s[..|s| - |r|] == [s[0]] + s[1..][..|s| - 1 - |r|];
    }
  }

  /** Drops the trailing white space (see TrimEndSpec). */
  function TrimEnd(s: string): string
    decreases |s|
  {
    if s != [] && IsSpace(s[|s| - 1]) then TrimEnd(s[..|s| - 1]) else s
  }

  /** The result of TrimEnd is the longest prefix of `s` that does not end
      with a space character. */
  lemma {:induction false} TrimEndSpec(s: string)
    ensures var r := TrimEnd(s);
      && |r| <= |s| && r == s[..|r|]
      && IsBlank(s[|r|..])
      && (r != [] ==> !IsSpace(r[|r| - 1]))
    decreases |s|
  {
    if s != [] && IsSpace(s[|s| - 1]) {
      var t := s[..|s| - 1];
      TrimEndSpec(t);
      var r := TrimEnd(s);
      assert s[|r|..] == t[|r|..] + [s[|s| - 1]];
    }
  }

  /** `String.prototype.trim` (see TrimSpec). */
  function Trim(s: string): string
  {
    TrimEnd(TrimStart(s))
  }

  /** Trim leaves the slice of `s` between blank text on both sides, with no
      space character at either end; it is empty exactly when `s` is blank. */
  lemma TrimSpec(s: string)
    ensures var r := Trim(s);
      && (r == [] <==> IsBlank(s))
      && (r != [] ==> !IsSpace(r[0]) && !IsSpace(r[|r| - 1]))
      && (exists a :: 0 <= a && a + |r| <= |s| && r == s[a..a + |r|]
                      && IsBlank(s[..a]) && IsBlank(s[a + |r|..]))
  {
    var t := TrimStart(s);
    var r := TrimEnd(t);
    TrimStartSpec(s);
    TrimEndSpec(t);
    var a := |s| - |t|;
    assert t == s[a..] && IsBlank(s[..a]);
    assert t != [] ==> !IsSpace(t[0]);
    assert |r| <= |t| && r == t[..|r|] && IsBlank(t[|r|..]);
    TrimmedSlice(s, a, t, r);
    assert 0 <= a && a + |r| <= |s| && r == s[a..a + |r|]
           && IsBlank(s[..a]) && IsBlank(s[a + |r|..]);
  }

  /** Cutting blank text `s[..a]` off the front and then blank text off the
      end of the rest leaves a slice of `s` with blank text on both sides. */
  lemma TrimmedSlice(s: string, a: nat, t: string, r: string)
    requires a <= |s| && t == s[a..] && IsBlank(s[..a])
    requires t != [] ==> !IsSpace(t[0])
    requires |r| <= |t| && r == t[..|r|] && IsBlank(t[|r|..])
    ensures r == [] <==> IsBlank(s)
    ensures a + |r| <= |s| && r == s[a..a + |r|]
    ensures IsBlank(s[..a]) && IsBlank(s[a + |r|..])
  {
    assert s[a + |r|..] == t[|r|..];
    if r == [] {
      assert t[|r|..] == t;
      BlankConcat(s[..a], t);
      assert s == s[..a] + t;
    } else {
      assert !IsSpace(s[a]);
    }
  }

  lemma BlankConcat(x: string, y: string)
    requires IsBlank(x) && IsBlank(y)
    ensures IsBlank(x + y)
  {
    forall i | 0 <= i < |x + y|
      ensures IsSpace((x + y)[i])
    {
      if i >= |x| {
        assert (x + y)[i] == y[i - |x|];
      }
    }
  }

  /** `s` has no white space at either end. */
  predicate NoOuterSpace(s: string)
  {
    s != [] ==> !IsSpace(s[0]) && !IsSpace(s[|s| - 1])
  }

  /** Trim changes a string exactly when it has white space at one of its
      ends. */
  lemma TrimFixed(s: string)
    ensures Trim(s) == s <==> NoOuterSpace(s)
  {
    TrimSpec(s);
    if s != [] && NoOuterSpace(s) {
      assert TrimStart(s) == s;
      assert TrimEnd(s) == s;
    }
  }

  /** Trimming twice is trimming once. */
  lemma TrimIdempotent(s: string)
    ensures Trim(Trim(s)) == Trim(s)
  {
    TrimSpec(s);
    TrimFixed(Trim(s));
  }

  /** `sep` occurs in `s` starting at index `i`. */
  predicate OccursAt(s: string, sep: string, i: int)
  {
    0 <= i && i + |sep| <= |s| && s[i..i + |sep|] == sep
  }

  /** `String.prototype.split(sep)` for a non-empty string separator: the
      pieces between the non-overlapping occurrences of `sep`, found from left
      to right. There is always at least one piece. */
  function Split(s: string, sep: string): (parts: seq<string>)
    requires sep != []
    ensures |parts| >= 1
    decreases |s|
  {
    if |s| < |sep| then [s]
    else if s[..|sep|] == sep then [[]] + Split(s[|sep|..], sep)
    else
      var rest := Split(s[1..], sep);
      [[s[0]] + rest[0]] + rest[1..]
  }

  /** `Array.prototype.join(sep)`: the pieces with `sep` between neighbours. */
  function Join(parts: seq<string>, sep: string): string
  {
    if |parts| == 0 then []
    else if |parts| == 1 then parts[0]
    else parts[0] + sep + Join(parts[1..], sep)
  }

  /** Pieces with no white space at their ends, joined by a non-empty
      separator with none at its ends, give a string with none at its ends:
      each end is the end of a piece or of the separator. */
  lemma {:induction false} JoinNoOuterSpace(parts: seq<string>, sep: string)
    requires sep != [] && NoOuterSpace(sep)
    requires forall k :: 0 <= k < |parts| ==> NoOuterSpace(parts[k])
    ensures NoOuterSpace(Join(parts, sep))
    decreases |parts|
  {
    if |parts| > 1 {
      var rest := Join(parts[1..], sep);
      JoinNoOuterSpace(parts[1..], sep);
      var j := parts[0] + sep + rest;
      assert j == Join(parts, sep);
      assert j[0] == if parts[0] != [] then parts[0][0] else sep[0];
      assert j[|j| - 1] == if rest != [] then rest[|rest| - 1] else sep[|sep| - 1];
    }
  }

  lemma {:induction false} JoinConsFirst(x: string, parts: seq<string>, sep: string)
    requires parts != []
    ensures Join([x + parts[0]] + parts[1..], sep) == x + Join(parts, sep)
  {
    var ps := [x + parts[0]] + parts[1..];
    if |parts| > 1 {
      assert ps[1..] == parts[1..];
    }
  }

  /** Split when `s` does not start with `sep`: the first character joins the
      first piece of the split of the rest. */
  lemma SplitSkip(s: string, sep: string)
    requires sep != [] && |s| >= |sep| && s[..|sep|] != sep
    ensures var rest := Split(s[1..], sep);
      Split(s, sep) == [[s[0]] + rest[0]] + rest[1..]
  {
  }

  /** Joining the pieces of a split with the same separator gives back the
      original string. */
  lemma {:induction false} SplitJoin(s: string, sep: string)
    requires sep != []
    ensures Join(Split(s, sep), sep) == s
    decreases |s|
  {
    if |s| < |sep| {
      assert Split(s, sep) == [s];
    } else if s[..|sep|] == sep {
      var rest := Split(s[|sep|..], sep);
      assert Split(s, sep) == [[]] + rest;
      SplitJoin(s[|sep|..], sep);
      assert ([[]] + rest)[1..] == rest;
      assert Join([[]] + rest, sep) == [] + sep + Join(rest, sep);
      assert s == s[..|sep|] + s[|sep|..];
    } else {
      var rest := Split(s[1..], sep);
      SplitSkip(s, sep);
      SplitJoin(s[1..], sep);
      JoinConsFirst([s[0]], rest, sep);
      assert s == [s[0]] + s[1..];
    }
  }

  /** When the first occurrence of `sep` starts at `p`, the first piece is the
      text before it and the remaining pieces are the split of the text after
      it. */
  lemma {:induction false} SplitAtFirst(s: string, sep: string, p: nat)
    requires sep != []
    requires OccursAt(s, sep, p)
    requires forall q :: 0 <= q < p ==> !OccursAt(s, sep, q)
    ensures Split(s, sep) == [s[..p]] + Split(s[p + |sep|..], sep)
    decreases p
  {
    if p == 0 {
      assert s[..|sep|] == sep;
    } else {
      assert !OccursAt(s, sep, 0);
      var t := s[1..];
      forall q | 0 <= q < p - 1
        ensures !OccursAt(t, sep, q)
      {
        assert t[q..q + |sep|] == s[q + 1..q + 1 + |sep|];
        assert !OccursAt(s, sep, q + 1);
      }
      assert t[p - 1..p - 1 + |sep|] == s[p..p + |sep|];
      SplitAtFirst(t, sep, p - 1);
      assert t[p - 1 + |sep|..] == s[p + |sep|..];
      assert [s[0]] + t[..p - 1] == s[..p];
    }
  }

  /** An occurrence after the first character is an occurrence in the tail. */
  lemma OccursInTail(s: string, sep: string, q: int)
    requires s != [] && 0 < q
    ensures OccursAt(s, sep, q) <==> OccursAt(s[1..], sep, q - 1)
  {
    if q + |sep| <= |s| {
      assert s[1..][q - 1..q - 1 + |sep|] == s[q..q + |sep|];
    }
  }

  /** The first piece of a split is the longest prefix of `s` in which `sep`
      does not start; if it stops short of the end, `sep` starts right there. */
  lemma {:induction false} SplitHead(s: string, sep: string)
    requires sep != []
    ensures var h := Split(s, sep)[0];
      && |h| <= |s| && h == s[..|h|]
      && (forall q :: 0 <= q < |h| ==> !OccursAt(s, sep, q))
      && (|h| < |s| ==> OccursAt(s, sep, |h|))
    decreases |s|
  {
    var h := Split(s, sep)[0];
    if |s| < |sep| {
      assert h == s;
    } else if s[..|sep|] == sep {
      assert h == [];
      assert OccursAt(s, sep, 0);
    } else {
      var t := s[1..];
      SplitSkip(s, sep);
      SplitHead(t, sep);
      var h0 := Split(t, sep)[0];
      assert h == [s[0]] + h0;
      assert h0 == t[..|h0|];
      assert h == s[..|h|];
      forall q | 0 <= q < |h|
        ensures !OccursAt(s, sep, q)
      {
        if q == 0 {
          assert s[..|sep|] != sep;
        } else {
          OccursInTail(s, sep, q);
        }
      }
      if |h| < |s| {
        OccursInTail(s, sep, |h|);
      }
    }
  }

  /** The part of `s` before its first line feed (all of `s` if it has none):
      the first piece of `split('\n')`. */
  function FirstLine(s: string): (r: string)
    ensures |r| <= |s| && r == s[..|r|]
    ensures forall i :: 0 <= i < |r| ==> r[i] != '\n'
    ensures |r| < |s| ==> s[|r|] == '\n'
  {
    FirstPieceOfLines(s);
    Split(s, "\n")[0]
  }

  lemma FirstPieceOfLines(s: string)
    ensures var r := Split(s, "\n")[0];
      && |r| <= |s| && r == s[..|r|]
      && (forall i :: 0 <= i < |r| ==> r[i] != '\n')
      && (|r| < |s| ==> s[|r|] == '\n')
  {
    var r := Split(s, "\n")[0];
    SplitHead(s, "\n");
    forall i | 0 <= i < |r|
      ensures r[i] != '\n'
    {
      assert !OccursAt(s, "\n", i);
      assert s[i..i + 1] == [s[i]];
    }
    if |r| < |s| {
      assert OccursAt(s, "\n", |r|);
      assert s[|r|..|r| + 1] == [s[|r|]];
    }
  }
}
