/** The class-name helpers `classString` (es/index.js:1840-1849) and `cn` (es/index.js:2054). */
module ClassNames {
  import opened Strings
  import opened Values

  /** A `classInfo` object: its enumerable properties, as name and value, in `for...in` order. */
  type ClassInfo = seq<(string, Value)>

  /** The name a property contributes: its own when its value is truthy. */
  function NameOf(e: (string, Value)): seq<string>
  {
    if Truthy(e.1) then [e.0] else []
  }

  /** The names whose values are truthy, in order. */
  function TruthyNames(info: ClassInfo): (r: seq<string>)
    ensures |r| <= |info|
  {
    if |info| == 0 then [] else NameOf(info[0]) + TruthyNames(info[1..])
  }

  /** One more property keeps the earlier names and adds its own when its value is truthy. */
  lemma {:induction false} TruthyNamesSnoc(info: ClassInfo, e: (string, Value))
    ensures TruthyNames(info + [e]) == TruthyNames(info) + NameOf(e)
  {
    if |info| == 0 {
      assert ([e])[1..] == [];
    } else {
      var x := info + [e];
      assert x[0] == info[0] && x[1..] == info[1..] + [e];
      calc {
        TruthyNames(x);
        NameOf(info[0]) + TruthyNames(info[1..] + [e]);
        { TruthyNamesSnoc(info[1..], e); }
        NameOf(info[0]) + (TruthyNames(info[1..]) + NameOf(e));
        TruthyNames(info) + NameOf(e);
      }
    }
  }

  /** A name is listed exactly when some property of that name has a truthy value. */
  lemma {:induction false} TruthyNamesMeaning(info: ClassInfo, name: string)
    ensures name in TruthyNames(info) <==> exists k :: 0 <= k < |info| && info[k].0 == name && Truthy(info[k].1)
  {
    if |info| > 0 {
      TruthyNamesMeaning(info[1..], name);
      if name in TruthyNames(info[1..]) {
        var k :| 0 <= k < |info[1..]| && info[1..][k].0 == name && Truthy(info[1..][k].1);
        assert info[k + 1] == info[1..][k];
      }
      if exists k :: 0 <= k < |info| && info[k].0 == name && Truthy(info[k].1) {
        var k :| 0 <= k < |info| && info[k].0 == name && Truthy(info[k].1);
        if k > 0 {
          assert info[1..][k - 1] == info[k];
        }
      }
    }
  }

  /** `classString(classInfo)`: the names of the truthy properties, joined by single spaces. */
  method ClassString(info: ClassInfo) returns (r: string)
    ensures r == Join(TruthyNames(info), " ")
  {
    var o: seq<string> := [];
    var k := 0;
    while k < |info|
      invariant 0 <= k <= |info|
      invariant o == TruthyNames(info[..k])
    {
      var (name, v) := info[k];
      TruthyNamesSnoc(info[..k], info[k]);
      assert info[..k + 1] == info[..k] + [info[k]];
      if Truthy(v) {
        o := o + [name];
      }
      assert o == TruthyNames(info[..k + 1]);
      k := k + 1;
    }
    assert info[..|info|] == info;
    r := Join(o, " ");
  }

  /** With no truthy property the class string is empty. */
  lemma NoTruthyNames(info: ClassInfo)
    requires forall k :: 0 <= k < |info| ==> !Truthy(info[k].1)
    ensures Join(TruthyNames(info), " ") == ""
  {
    if TruthyNames(info) != [] {
      TruthyNamesMeaning(info, TruthyNames(info)[0]);
    }
  }

  /** `cn(...argv)`: the arguments joined by single spaces, with the white space at both ends
      trimmed.  An `undefined` or `null` argument, which `join` renders as `''`, is passed
      here as `""`. */
  function Cn(argv: seq<string>): (r: string)
  {
    Trim(Join(argv, " "))
  }

  /** `cn` is the join less a white-space prefix and a white-space suffix, and has no white
      space at either end. */
  lemma CnTrimmed(argv: seq<string>)
    ensures Trims(Join(argv, " "), Cn(argv))
    ensures Cn(argv) == [] || (!IsSpace(Cn(argv)[0]) && !IsSpace(Cn(argv)[|Cn(argv)| - 1]))
  {
  }

  /** One more argument is joined after a single space. */
  lemma {:induction false} JoinSnoc(argv: seq<string>, b: string)
    requires |argv| >= 1
    ensures Join(argv + [b], " ") == Join(argv, " ") + " " + b
  {
    var x := argv + [b];
    assert x[0] == argv[0] && x[1..] == argv[1..] + [b];
    if |argv| == 1 {
      assert x[1..] == [b];
    } else {
      JoinSnoc(argv[1..], b);
    }
  }

  /** A last argument that is empty (an unset class name, as in `cn('input', classname)`) or
      only white space changes nothing. */
  lemma CnIgnoresBlankLast(argv: seq<string>, b: string)
    requires |argv| >= 1 && AllSpace(b)
    ensures Cn(argv + [b]) == Cn(argv)
  {
    JoinSnoc(argv, b);
    var sp := " " + b;
    assert AllSpace(sp) by {
      forall k | 0 <= k < |sp| ensures IsSpace(sp[k]) {
        if k > 0 {
          assert sp[k] == b[k - 1];
        }
      }
    }
    assert Join(argv, " ") + " " + b == Join(argv, " ") + sp;
    TrimTrailingSpace(Join(argv, " "), sp);
  }

  /** A class name with no white space at either end. */
  predicate Tidy(s: string)
  {
    |s| > 0 && !IsSpace(s[0]) && !IsSpace(s[|s| - 1])
  }

  /** The join of tidy names starts with the first name's first character and ends with the
      last name's last character. */
  lemma {:induction false} JoinEnds(argv: seq<string>)
    requires |argv| >= 1 && forall k :: 0 <= k < |argv| ==> Tidy(argv[k])
    ensures Tidy(argv[0]) && Tidy(argv[|argv| - 1])
    ensures var j := Join(argv, " ");
      |j| > 0 && j[0] == argv[0][0] && j[|j| - 1] == argv[|argv| - 1][|argv[|argv| - 1]| - 1]
  {
    if |argv| >= 2 {
      JoinEnds(argv[1..]);
      var rest := Join(argv[1..], " ");
      assert Join(argv, " ") == argv[0] + " " + rest;
    }
  }

  /** For tidy names `cn` only joins: `cn('a', 'b c')` is `'a b c'`. */
  lemma CnOfTidyNames(argv: seq<string>)
    requires forall k :: 0 <= k < |argv| ==> Tidy(argv[k])
    ensures Cn(argv) == Join(argv, " ")
  {
    if |argv| > 0 {
      var j := Join(argv, " ");
      JoinEnds(argv);
      assert TrimStart(j) == j;
      assert TrimEnd(j) == j;
    }
  }
}
