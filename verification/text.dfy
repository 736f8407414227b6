/** The string functions the solvers use: `strings.Split` on a one-rune
    separator, `strings.Fields` and `strings.Repeat`. */
module Text {

  function Occurrences(s: string, c: char): nat {
    multiset(s)[c]
  }

  /** The parts joined back together with the separator between them. */
  function Join(parts: seq<string>, sep: char): string
    requires |parts| >= 1
  {
    if |parts| == 1 then parts[0] else parts[0] + [sep] + Join(parts[1..], sep)
  }

  /** `strings.Split(s, string(sep))`: one more part than there are
      separators, even for the empty string, which gives one empty part. */
  function Split(s: string, sep: char): (parts: seq<string>)
    ensures |parts| == Occurrences(s, sep) + 1
    ensures forall i :: 0 <= i < |parts| ==> sep !in parts[i]
    ensures Join(parts, sep) == s
  {
    PartsJoin(s, sep);
    Parts(s, sep)
  }

  /** The scan behind `Split`: a separator starts a new part, any other
      character extends the current one. */
  function Parts(s: string, sep: char): (parts: seq<string>)
    ensures |parts| >= 1
  {
    if s == [] then [""]
    else
      var rest := Parts(s[1..], sep);
      if s[0] == sep then [""] + rest else [[s[0]] + rest[0]] + rest[1..]
  }

  lemma {:induction false} PartsJoin(s: string, sep: char)
    ensures var parts := Parts(s, sep);
      && |parts| == Occurrences(s, sep) + 1
      && (forall i :: 0 <= i < |parts| ==> sep !in parts[i])
      && Join(parts, sep) == s
    decreases |s|
  {
    if s != [] {
      var rest := Parts(s[1..], sep);
      PartsJoin(s[1..], sep);
      if s[0] == sep {
        SplitAtSeparator(s, sep, rest);
      } else {
        SplitExtends(s, sep, rest);
      }
    }
  }

  lemma SplitAtSeparator(s: string, sep: char, rest: seq<string>)
    requires s != [] && s[0] == sep
    requires |rest| == Occurrences(s[1..], sep) + 1
    requires forall i :: 0 <= i < |rest| ==> sep !in rest[i]
    requires Join(rest, sep) == s[1..]
    ensures |[""] + rest| == Occurrences(s, sep) + 1
    ensures forall i :: 0 <= i < |[""] + rest| ==> sep !in ([""] + rest)[i]
    ensures Join([""] + rest, sep) == s
  {
    assert s == [s[0]] + s[1..];
    assert ([""] + rest)[1..] == rest;
  }

  lemma SplitExtends(s: string, sep: char, rest: seq<string>)
    requires s != [] && s[0] != sep
    requires |rest| == Occurrences(s[1..], sep) + 1
    requires forall i :: 0 <= i < |rest| ==> sep !in rest[i]
    requires Join(rest, sep) == s[1..]
    ensures var parts := [[s[0]] + rest[0]] + rest[1..];
      && |parts| == Occurrences(s, sep) + 1
      && (forall i :: 0 <= i < |parts| ==> sep !in parts[i])
      && Join(parts, sep) == s
  {
    assert s == [s[0]] + s[1..];
    var parts := [[s[0]] + rest[0]] + rest[1..];
    assert parts[1..] == rest[1..];
    assert sep !in parts[0];
  }

  /** A string without the separator is one part. */
  lemma SplitWhole(s: string, sep: char)
    requires sep !in s
    ensures Split(s, sep) == [s]
  {
    PartsWhole(s, sep);
  }

  lemma {:induction false} PartsWhole(s: string, sep: char)
    requires sep !in s
    ensures Parts(s, sep) == [s]
    decreases |s|
  {
    if s != [] {
      assert sep !in s[1..] by {
        forall k | 0 <= k < |s| - 1 ensures s[1..][k] != sep { assert s[1..][k] == s[k + 1]; }
      }
      PartsWhole(s[1..], sep);
      assert s[0] in s && [s[0]] + s[1..] == s;
    }
  }

  /** A first part free of the separator is split off exactly. */
  lemma SplitFirst(x: string, rest: string, sep: char)
    requires sep !in x
    ensures Split(x + [sep] + rest, sep) == [x] + Split(rest, sep)
  {
    PartsFirst(x, rest, sep);
  }

  lemma {:induction false} PartsFirst(x: string, rest: string, sep: char)
    requires sep !in x
    ensures Parts(x + [sep] + rest, sep) == [x] + Parts(rest, sep)
    decreases |x|
  {
    var s := x + [sep] + rest;
    if x == [] {
      assert s[0] == sep && s[1..] == rest;
    } else {
      var t := x[1..] + [sep] + rest;
      assert s[0] == x[0] && s[1..] == t;
      assert sep !in x[1..] by {
        forall k | 0 <= k < |x| - 1 ensures x[1..][k] != sep { assert x[1..][k] == x[k + 1]; }
      }
      PartsFirst(x[1..], rest, sep);
      assert [x[0]] + x[1..] == x;
    }
  }

  /** Splitting undoes joining when no part holds the separator. */
  lemma {:induction false} SplitJoin(parts: seq<string>, sep: char)
    requires |parts| >= 1
    requires forall i :: 0 <= i < |parts| ==> sep !in parts[i]
    ensures Split(Join(parts, sep), sep) == parts
    decreases |parts|
  {
    if |parts| == 1 {
      SplitWhole(parts[0], sep);
    } else {
      SplitJoin(parts[1..], sep);
      SplitFirst(parts[0], Join(parts[1..], sep), sep);
      assert [parts[0]] + parts[1..] == parts;
    }
  }

  /** Go's `unicode.IsSpace`: the Latin-1 spaces plus the other Unicode
      White_Space characters. */
  predicate IsSpace(c: char) {
    var n := c as int;
    (0x09 <= n <= 0x0D) || n == 0x20 || n == 0x85 || n == 0xA0 || n == 0x1680
    || (0x2000 <= n <= 0x200A) || n == 0x2028 || n == 0x2029 || n == 0x202F
    || n == 0x205F || n == 0x3000
  }

  /** The text with every space dropped. */
  function WithoutSpaces(s: string): string {
    if s == [] then [] else (if IsSpace(s[0]) then [] else [s[0]]) + WithoutSpaces(s[1..])
  }

  function Concat(parts: seq<string>): string {
    if parts == [] then [] else parts[0] + Concat(parts[1..])
  }

  predicate Word(t: string) {
    |t| > 0 && forall j :: 0 <= j < |t| ==> !IsSpace(t[j])
  }

  /** `strings.Fields(s)`: the maximal runs of non-space characters, in order. */
  function Fields(s: string): (fields: seq<string>)
    ensures forall i :: 0 <= i < |fields| ==> Word(fields[i])
    ensures Concat(fields) == WithoutSpaces(s)
    ensures |s| > 0 && !IsSpace(s[0]) ==> |fields| > 0 && |fields[0]| > 0 && fields[0][0] == s[0]
  {
    RunsWords(s);
    Runs(s)
  }

  /** The scan behind `Fields`: a space ends the current run, a non-space
      character starts one or extends the one that follows it. */
  function Runs(s: string): (runs: seq<string>)
    ensures |s| > 0 && !IsSpace(s[0]) ==> |runs| > 0
  {
    if s == [] then []
    else
      var rest := Runs(s[1..]);
      if IsSpace(s[0]) then rest
      else if |s| > 1 && !IsSpace(s[1]) then [[s[0]] + rest[0]] + rest[1..]
      else [[s[0]]] + rest
  }

  lemma {:induction false} RunsWords(s: string)
    ensures var runs := Runs(s);
      && (forall i :: 0 <= i < |runs| ==> Word(runs[i]))
      && Concat(runs) == WithoutSpaces(s)
      && (|s| > 0 && !IsSpace(s[0]) ==> |runs[0]| > 0 && runs[0][0] == s[0])
    decreases |s|
  {
    if s != [] {
      var rest := Runs(s[1..]);
      RunsWords(s[1..]);
      if IsSpace(s[0]) {
      } else if |s| > 1 && !IsSpace(s[1]) {
        var w := [s[0]] + rest[0];
        assert Word(w) by {
          assert Word(rest[0]);
          assert forall j :: 1 <= j < |w| ==> w[j] == rest[0][j - 1];
        }
        var runs := [w] + rest[1..];
        assert runs[1..] == rest[1..];
        assert Concat(rest) == rest[0] + Concat(rest[1..]);
        assert Concat(runs) == w + Concat(rest[1..]);
      } else {
        assert Concat([[s[0]]] + rest) == [s[0]] + Concat(rest) by {
          assert ([[s[0]]] + rest)[1..] == rest;
        }
      }
    }
  }

  /** A leading space is skipped: it starts no field. */
  lemma FieldsSpace(c: char, s: string)
    requires IsSpace(c)
    ensures Fields([c] + s) == Fields(s)
  {
    assert ([c] + s)[1..] == s;
  }

  /** A word followed by a space or by the end of the text is one whole
      field: the fields are the maximal runs of non-space characters. */
  lemma {:induction false} FieldsWord(w: string, s: string)
    requires Word(w) && (s == [] || IsSpace(s[0]))
    ensures Fields(w + s) == [w] + Fields(s)
    decreases |w|
  {
    var ws := w + s;
    assert ws[0] == w[0] && ws[1..] == w[1..] + s;
    if |w| == 1 {
      assert ws[1..] == s;
      assert [w[0]] == w;
    } else {
      assert Word(w[1..]) by {
        assert forall j :: 0 <= j < |w| - 1 ==> w[1..][j] == w[j + 1];
      }
      FieldsWord(w[1..], s);
      assert ws[1] == w[1];
      assert [w[0]] + w[1..] == w;
    }
  }

  /** Splitting words joined by single spaces gives the words back. */
  lemma {:induction false} FieldsJoin(words: seq<string>)
    requires |words| >= 1 && forall i :: 0 <= i < |words| ==> Word(words[i])
    ensures Fields(Join(words, ' ')) == words
    decreases |words|
  {
    if |words| == 1 {
      FieldsWord(words[0], []);
      assert words[0] + [] == words[0];
    } else {
      var rest := Join(words[1..], ' ');
      assert Join(words, ' ') == words[0] + ([' '] + rest);
      FieldsWord(words[0], [' '] + rest);
      FieldsSpace(' ', rest);
      FieldsJoin(words[1..]);
      assert [words[0]] + words[1..] == words;
    }
  }

  /** `strings.Repeat(s, n)`: n copies of s, one after the other. */
  function Repeat(s: string, n: nat): (r: string)
    ensures n >= 1 ==> |r| >= |s| && r[..|s|] == s
  {
    if n == 0 then "" else s + Repeat(s, n - 1)
  }

  lemma Associative(x: string, y: string, z: string)
    ensures (x + y) + z == x + (y + z)
  {
  }

  /** Repeating a times and then b times is repeating a + b times. */
  lemma {:induction false} RepeatAdd(s: string, a: nat, b: nat)
    ensures Repeat(s, a) + Repeat(s, b) == Repeat(s, a + b)
    decreases a
  {
    if a == 0 {
      assert Repeat(s, a) == "";
    } else {
      RepeatAdd(s, a - 1, b);
      var x, y := Repeat(s, a - 1), Repeat(s, b);
      assert Repeat(s, a + b) == s + Repeat(s, a - 1 + b);
      assert (s + x) + y == s + (x + y) by {
        Associative(s, x, y);
      }
    }
  }

  lemma {:induction false} RepeatLength(s: string, n: nat)
    ensures |Repeat(s, n)| == |s| * n
    decreases n
  {
    if n > 0 {
      RepeatLength(s, n - 1);
      assert |s| * n == |s| + |s| * (n - 1);
    }
  }
}
