/** The few pieces of Python string handling that the disk views and the LUKS
    helpers rely on: `str.split()`, `str.split(sep)`, `sep.join(...)`,
    `str.startswith` (and `re.match` with a literal prefix), and
    `file.readlines()`. Strings are byte strings (Python 2 `str`), modelled as
    `seq<char>`. */
module Text {

  /** Python 2 whitespace for `str.split()`: space, tab, newline, carriage
      return, vertical tab and form feed. */
  predicate IsSpace(c: char) {
    c == ' ' || c == '\t' || c == '\n' || c == '\r' || c == '\U{B}' || c == '\U{C}'
  }

  predicate NoSpace(s: string) {
    forall i :: 0 <= i < |s| ==> !IsSpace(s[i])
  }

  /** What `str.split()` can yield: a non-empty run without whitespace. */
  predicate IsWord(w: string) {
    w != [] && NoSpace(w)
  }

  predicate StartsWith(s: string, prefix: string) {
    |prefix| <= |s| && s[..|prefix|] == prefix
  }

  // ---------------------------------------------------------------------
  // str.split()

  /** Length of the longest whitespace-free prefix of `s`. */
  function WordLength(s: string): (n: nat)
    ensures n <= |s|
    ensures NoSpace(s[..n])
    ensures n < |s| ==> IsSpace(s[n])
  {
    if s == [] || IsSpace(s[0]) then 0
    else
      var n := 1 + WordLength(s[1..]);
      assert s[..n] == [s[0]] + s[1..][..n - 1];
      n
  }

  /** Python's `s.split()`: the maximal whitespace-free runs of `s`, in order. */
  function Fields(s: string): (r: seq<string>)
    ensures forall w <- r :: IsWord(w)
    decreases |s|
  {
    if s == [] then []
    else if IsSpace(s[0]) then Fields(s[1..])
    else
      var n := WordLength(s);
      [s[..n]] + Fields(s[n..])
  }

  lemma {:induction false} WordLengthAppend(s: string, t: string)
    requires t == [] || IsSpace(t[0])
    ensures WordLength(s + t) == WordLength(s)
  {
    if s != [] && !IsSpace(s[0]) {
      assert (s + t)[1..] == s[1..] + t;
      WordLengthAppend(s[1..], t);
    } else if s == [] {
      assert s + t == t;
    }
  }

  lemma WordLengthOfWord(w: string)
    requires NoSpace(w)
    ensures WordLength(w) == |w|
  {
  }

  /** Appending a whitespace character never changes the fields. */
  lemma {:induction false} FieldsAppendSpace(s: string, c: char)
    requires IsSpace(c)
    ensures Fields(s + [c]) == Fields(s)
    decreases |s|
  {
    if s == [] {
      assert Fields([c]) == Fields([c][1..]);
    } else if IsSpace(s[0]) {
      assert (s + [c])[1..] == s[1..] + [c];
      FieldsAppendSpace(s[1..], c);
    } else {
      var n := WordLength(s);
      WordLengthAppend(s, [c]);
      assert (s + [c])[..n] == s[..n];
      assert (s + [c])[n..] == s[n..] + [c];
      FieldsAppendSpace(s[n..], c);
    }
  }

  /** A word followed by whitespace is the first field. */
  lemma {:induction false} FieldsWordThenSpace(w: string, c: char, rest: string)
    requires IsWord(w) && IsSpace(c)
    ensures Fields(w + [c] + rest) == [w] + Fields(rest)
  {
    var s := w + [c] + rest;
    assert s == w + ([c] + rest);
    WordLengthAppend(w, [c] + rest);
    WordLengthOfWord(w);
    assert s[..|w|] == w;
    assert s[|w|..] == [c] + rest;
    assert ([c] + rest)[1..] == rest;
  }

  lemma FieldsOfWord(w: string)
    requires IsWord(w)
    ensures Fields(w) == [w]
  {
    WordLengthOfWord(w);
    assert !IsSpace(w[0]);
    assert w[..|w|] == w;
    assert w[|w|..] == [];
  }

  // ---------------------------------------------------------------------
  // str.split(sep) and sep.join(parts)

  /** Python's `s.split(sep)` for a one-character separator: always at least
      one part, and no part contains the separator. */
  function Split(s: string, sep: char): (r: seq<string>)
    ensures |r| >= 1
    ensures forall p <- r :: sep !in p
  {
    if s == [] then [""]
    else
      var rest := Split(s[1..], sep);
      if s[0] == sep then [""] + rest
      else [[s[0]] + rest[0]] + rest[1..]
  }

  /** Python's `sep.join(parts)`. */
  function Join(parts: seq<string>, sep: char): string {
    if parts == [] then ""
    else if |parts| == 1 then parts[0]
    else parts[0] + [sep] + Join(parts[1..], sep)
  }

  function Last<T>(s: seq<T>): T
    requires s != []
  {
    s[|s| - 1]
  }

  lemma {:induction false} SplitWithoutSeparator(s: string, sep: char)
    requires sep !in s
    ensures Split(s, sep) == [s]
  {
    if s != [] {
      SplitWithoutSeparator(s[1..], sep);
      assert [s[0]] + s[1..] == s;
    }
  }

  /** Joining after prefixing the first part prefixes the joined text. */
  lemma JoinPrependFirst(c: char, parts: seq<string>, sep: char)
    requires parts != []
    ensures Join([[c] + parts[0]] + parts[1..], sep) == [c] + Join(parts, sep)
  {
    var r := [[c] + parts[0]] + parts[1..];
    assert r[0] == [c] + parts[0] && r[1..] == parts[1..];
    if |parts| > 1 {
      assert Join(r, sep) == ([c] + parts[0]) + [sep] + Join(parts[1..], sep);
    }
  }

  /** Splitting undoes joining, and joining undoes splitting. */
  lemma {:induction false} JoinSplit(s: string, sep: char)
    ensures Join(Split(s, sep), sep) == s
  {
    if s != [] {
      var rest := Split(s[1..], sep);
      JoinSplit(s[1..], sep);
      if s[0] == sep {
        assert Split(s, sep) == [""] + rest;
        assert ([""] + rest)[1..] == rest;
      } else {
        JoinPrependFirst(s[0], rest, sep);
        assert [s[0]] + s[1..] == s;
      }
    }
  }

  /** A separator followed by a separator-free tail splits off that tail as the
      last part. */
  lemma {:induction false} SplitAppend(a: string, sep: char, b: string)
    requires sep !in b
    ensures Split(a + [sep] + b, sep) == Split(a, sep) + [b]
  {
    var s := a + [sep] + b;
    if a == [] {
      assert s == [sep] + b;
      assert s[1..] == b;
      SplitWithoutSeparator(b, sep);
    } else {
      assert s[1..] == a[1..] + [sep] + b;
      SplitAppend(a[1..], sep, b);
    }
  }

  /** Splitting at a separator splits the two sides independently. */
  lemma {:induction false} SplitAround(a: string, sep: char, b: string)
    ensures Split(a + [sep] + b, sep) == Split(a, sep) + Split(b, sep)
  {
    var s := a + [sep] + b;
    if a == [] {
      assert s == [sep] + b;
      assert s[1..] == b;
    } else {
      assert s[1..] == a[1..] + [sep] + b;
      SplitAround(a[1..], sep, b);
    }
  }

  /** A string splits into one part exactly when it has no separator. */
  lemma {:induction false} SplitSingle(s: string, sep: char)
    ensures |Split(s, sep)| == 1 <==> sep !in s
  {
    if s != [] {
      SplitSingle(s[1..], sep);
      assert s == [s[0]] + s[1..];
    }
  }

  lemma {:induction false} JoinSnoc(parts: seq<string>, x: string, sep: char)
    requires parts != []
    ensures Join(parts + [x], sep) == Join(parts, sep) + [sep] + x
    decreases |parts|
  {
    if |parts| == 1 {
      assert (parts + [x])[1..] == [x];
    } else {
      assert (parts + [x])[1..] == parts[1..] + [x];
      JoinSnoc(parts[1..], x, sep);
    }
  }

  // ---------------------------------------------------------------------
  // file.readlines() and writing lines back

  /** A line as `readlines` yields it: non-empty, with a newline at most as its
      last character. */
  predicate IsLine(l: string) {
    l != [] && '\n' !in l[..|l| - 1]
  }

  /** A line that ends with its newline. */
  predicate IsTerminatedLine(l: string) {
    IsLine(l) && l[|l| - 1] == '\n'
  }

  /** Length of the first line of `s`: up to and including the first newline,
      or all of `s` when it has none. */
  function FirstLineLength(s: string): (n: nat)
    requires s != []
    ensures 0 < n <= |s|
    ensures IsLine(s[..n])
    ensures n < |s| ==> s[n - 1] == '\n'
  {
    if s[0] == '\n' || |s| == 1 then 1
    else
      var n := 1 + FirstLineLength(s[1..]);
      assert s[..n][..n - 1] == [s[0]] + s[1..][..n - 1][..n - 2];
      n
  }

  /** Python's `f.readlines()` on a file holding `s`. */
  function ReadLines(s: string): (r: seq<string>)
    ensures forall l <- r :: IsLine(l)
    decreases |s|
  {
    if s == [] then []
    else
      var n := FirstLineLength(s);
      [s[..n]] + ReadLines(s[n..])
  }

  /** The text written by writing each of `ls` in turn. */
  function Concat(ls: seq<string>): string {
    if ls == [] then "" else Concat(ls[..|ls| - 1]) + Last(ls)
  }

  lemma ConcatSnoc(ls: seq<string>, x: string)
    ensures Concat(ls + [x]) == Concat(ls) + x
  {
    assert (ls + [x])[..|ls|] == ls;
  }

  lemma {:induction false} ConcatFront(x: string, ls: seq<string>)
    ensures Concat([x] + ls) == x + Concat(ls)
    decreases |ls|
  {
    if ls == [] {
      assert [x] + ls == [x];
      assert [x][..0] == [];
    } else {
      var n := |ls| - 1;
      assert ([x] + ls)[..n + 1] == [x] + ls[..n];
      ConcatFront(x, ls[..n]);
    }
  }

  /** Every character of a file comes back from `readlines`, in order. */
  lemma {:induction false} ConcatReadLines(s: string)
    ensures Concat(ReadLines(s)) == s
    decreases |s|
  {
    if s != [] {
      var n := FirstLineLength(s);
      ConcatReadLines(s[n..]);
      ConcatFront(s[..n], ReadLines(s[n..]));
      assert s[..n] + s[n..] == s;
    }
  }

  lemma {:induction false} FirstLineLengthOfLine(l: string, rest: string)
    requires IsLine(l) && (rest != [] ==> l[|l| - 1] == '\n')
    ensures FirstLineLength(l + rest) == |l|
    decreases |l|
  {
    var s := l + rest;
    if |l| > 1 {
      assert l[0] == l[..|l| - 1][0];
      assert s[1..] == l[1..] + rest;
      assert l[1..][..|l| - 2] == l[..|l| - 1][1..];
      FirstLineLengthOfLine(l[1..], rest);
    }
  }

  /** Writing newline-terminated lines and reading them back gives the same
      lines. */
  lemma {:induction false} ReadLinesConcat(ls: seq<string>)
    requires forall l <- ls :: IsTerminatedLine(l)
    ensures ReadLines(Concat(ls)) == ls
    decreases |ls|
  {
    if ls != [] {
      var rest := Concat(ls[1..]);
      assert ls == [ls[0]] + ls[1..];
      assert IsTerminatedLine(ls[0]);
      ConcatFront(ls[0], ls[1..]);
      FirstLineLengthOfLine(ls[0], rest);
      assert (ls[0] + rest)[..|ls[0]|] == ls[0];
      assert (ls[0] + rest)[|ls[0]|..] == rest;
      ReadLinesConcat(ls[1..]);
    }
  }

  /** Text without a newline put before a line keeps it one line. */
  lemma PrefixLine(p: string, l: string)
    requires '\n' !in p && IsLine(l)
    ensures IsLine(p + l)
    ensures IsTerminatedLine(l) ==> IsTerminatedLine(p + l)
  {
    assert (p + l)[..|p + l| - 1] == p + l[..|l| - 1];
  }

  /** A text that is empty or ends with a newline reads as newline-terminated
      lines only. */
  lemma {:induction false} ReadLinesTerminated(s: string)
    requires s == [] || s[|s| - 1] == '\n'
    ensures forall l <- ReadLines(s) :: IsTerminatedLine(l)
    decreases |s|
  {
    if s != [] {
      var n := FirstLineLength(s);
      ReadLinesTerminated(s[n..]);
      assert ReadLines(s) == [s[..n]] + ReadLines(s[n..]);
    }
  }

  /** A text with no newline before its last character is read as one line. */
  lemma ReadLinesOfLine(l: string)
    requires IsLine(l)
    ensures ReadLines(l) == [l]
  {
    FirstLineLengthOfLine(l, []);
    assert l + [] == l;
    assert l[..|l|] == l;
    assert l[|l|..] == [];
  }
}
