/** String helpers shared by the literal compiler, the attribute parts and the class-name helpers.
    JavaScript strings are modelled as `seq<char>`; no Unicode normalisation is attempted. */
module Strings {

  /** `parts.join(sep)` */
  function Join(parts: seq<string>, sep: string): (r: string)
    ensures |parts| == 1 ==> r == parts[0]
  {
    if |parts| == 0 then ""
    else if |parts| == 1 then parts[0]
    else parts[0] + sep + Join(parts[1..], sep)
  }

  /** Concatenation of all parts: `parts.join('')`. */
  function Concat(parts: seq<string>): string
  {
    if |parts| == 0 then "" else parts[0] + Concat(parts[1..])
  }

  /** The text `s0 + f0 + s1 + f1 + ... + f(n-1) + sn` of a tagged template whose static
      fragments are `strings` and whose interpolated texts are `fills`. */
  function Interleave(strings: seq<string>, fills: seq<string>): string
    requires |strings| == |fills| + 1
  {
    if |fills| == 0 then strings[0]
    else strings[0] + fills[0] + Interleave(strings[1..], fills[1..])
  }

  /** Adding one more expression and fragment extends the interleaving at its end. */
  lemma {:induction false} InterleaveSnoc(strings: seq<string>, fills: seq<string>, s: string, f: string)
    requires |strings| == |fills| + 1
    ensures Interleave(strings + [s], fills + [f]) == Interleave(strings, fills) + f + s
  {
    if |fills| == 0 {
      assert (strings + [s])[1..] == [s];
      assert (fills + [f])[1..] == [];
    } else {
      InterleaveSnoc(strings[1..], fills[1..], s, f);
      assert (strings + [s])[1..] == strings[1..] + [s];
      assert (fills + [f])[1..] == fills[1..] + [f];
    }
  }

  /** Characters JavaScript's `trim` removes (the ASCII part of its white-space set). */
  predicate IsSpace(c: char)
  {
    c == ' ' || c == '\t' || c == '\n' || c == '\r' || c == '\U{000B}' || c == '\U{000C}'
  }

  function TrimStart(s: string): (r: string)
    ensures |r| <= |s| && r == s[|s| - |r|..]
    ensures r == [] || !IsSpace(r[0])
    ensures forall k :: 0 <= k < |s| - |r| ==> IsSpace(s[k])
  {
    if |s| > 0 && IsSpace(s[0]) then TrimStart(s[1..]) else s
  }

  function TrimEnd(s: string): (r: string)
    ensures |r| <= |s| && r == s[..|r|]
    ensures r == [] || !IsSpace(r[|r| - 1])
    ensures forall k :: |r| <= k < |s| ==> IsSpace(s[k])
  {
    if |s| > 0 && IsSpace(s[|s| - 1]) then TrimEnd(s[..|s| - 1]) else s
  }

  /** Every character of `s` is white space. */
  predicate AllSpace(s: string)
  {
    forall k :: 0 <= k < |s| ==> IsSpace(s[k])
  }

  /** `r` is `s` less a white-space prefix and a white-space suffix. */
  ghost predicate Trims(s: string, r: string)
  {
    exists a :: 0 <= a <= |s| - |r| && s[a..a + |r|] == r && AllSpace(s[..a]) && AllSpace(s[a + |r|..])
  }

  /** `s.trim()`: `s` with the white space at both ends removed.  The result is `s` less a
      white-space prefix and a white-space suffix, and has no white space at either end, which
      pins it down. */
  function Trim(s: string): (r: string)
    ensures |r| <= |s| && Trims(s, r)
    ensures r == [] || (!IsSpace(r[0]) && !IsSpace(r[|r| - 1]))
  {
    var t := TrimStart(s);
    var r := TrimEnd(t);
    TrimSplit(s, t, r);
    r
  }

  /** The split `Trim` makes: a white-space prefix, the trimmed string, a white-space suffix. */
  lemma TrimSplit(s: string, t: string, r: string)
    requires |t| <= |s| && t == s[|s| - |t|..] && forall k :: 0 <= k < |s| - |t| ==> IsSpace(s[k])
    requires |r| <= |t| && r == t[..|r|] && forall k :: |r| <= k < |t| ==> IsSpace(t[k])
    ensures var a := |s| - |t|;
      0 <= a <= |s| - |r| && s[a..a + |r|] == r && AllSpace(s[..a]) && AllSpace(s[a + |r|..])
  {
    SliceOfSuffix(s, t, r);
  }

  /** A prefix `r` of a suffix `t` of `s` is the slice of `s` it stands at, and the rest of `t`
      is the rest of `s`. */
  lemma SliceOfSuffix(s: string, t: string, r: string)
    requires |t| <= |s| && t == s[|s| - |t|..] && |r| <= |t| && r == t[..|r|]
    ensures var a := |s| - |t|; s[a..a + |r|] == r && s[a + |r|..] == t[|r|..]
  {
  }

  /** White space added at the end is trimmed away again. */
  lemma {:induction false} TrimEndSpace(y: string, sp: string)
    requires AllSpace(sp)
    ensures TrimEnd(y + sp) == TrimEnd(y)
  {
    if |sp| > 0 {
      var x := y + sp;
      assert x[..|x| - 1] == y + sp[..|sp| - 1];
      assert IsSpace(x[|x| - 1]);
      TrimEndSpace(y, sp[..|sp| - 1]);
    } else {
      assert y + sp == y;
    }
  }

  /** Trimming the start of `x + z` trims inside `x` when `x` has a character that is not
      white space, and trims `z` otherwise. */
  lemma {:induction false} TrimStartAppend(x: string, z: string)
    ensures TrimStart(x) != [] ==> TrimStart(x + z) == TrimStart(x) + z
    ensures TrimStart(x) == [] ==> TrimStart(x + z) == TrimStart(z)
  {
    if |x| == 0 {
      assert x + z == z;
    } else {
      var c := x + z;
      assert c[0] == x[0] && c[1..] == x[1..] + z;
      if IsSpace(x[0]) {
        TrimStartAppend(x[1..], z);
      }
    }
  }

  /** A string of white space trims to nothing. */
  lemma AllSpaceTrims(s: string)
    requires AllSpace(s)
    ensures TrimStart(s) == [] && Trim(s) == []
  {
  }

  /** White space after a string changes nothing about its trimmed form. */
  lemma TrimTrailingSpace(y: string, sp: string)
    requires AllSpace(sp)
    ensures Trim(y + sp) == Trim(y)
  {
    TrimStartAppend(y, sp);
    if TrimStart(y) != [] {
      TrimEndSpace(TrimStart(y), sp);
    } else {
      AllSpaceTrims(sp);
    }
  }

  predicate HasPrefix(s: string, p: string)
  {
    |p| <= |s| && s[..|p|] == p
  }
}
