/** The functions of Go's `strings` package used on configuration text, and the laws that relate them. */
module Text {
  import opened Wrappers

  /** strings.Split for a one-character separator: there is always at least one piece. */
  function Split(s: string, sep: char): (pieces: seq<string>)
    ensures |pieces| >= 1
  {
    if s == "" then [""]
    else
      var rest := Split(s[1..], sep);
      if s[0] == sep then [""] + rest else [[s[0]] + rest[0]] + rest[1..]
  }

  /** strings.Join for a one-character separator. */
  function Join(pieces: seq<string>, sep: char): string {
    if |pieces| == 0 then ""
    else if |pieces| == 1 then pieces[0]
    else pieces[0] + [sep] + Join(pieces[1..], sep)
  }

  /** The text made of the given lines, each one ended by a newline. */
  function Unlines(lines: seq<string>): string {
    if |lines| == 0 then "" else lines[0] + "\n" + Unlines(lines[1..])
  }

  /** strings.SplitN(line, "=", 2) when it yields two parts, otherwise None. */
  function Cut(line: string): (parts: Option<(string, string)>) {
    if line == "" then None
    else if line[0] == '=' then Some(("", line[1..]))
    else match Cut(line[1..])
      case None => None
      case Some((k, v)) => Some(([line[0]] + k, v))
  }

  /** unicode.IsSpace. */
  predicate IsSpace(c: char) {
    var n := c as int;
    9 <= n <= 13 || n == 0x20 || n == 0x85 || n == 0xA0 || n == 0x1680 || 0x2000 <= n <= 0x200A
    || n == 0x2028 || n == 0x2029 || n == 0x202F || n == 0x205F || n == 0x3000
  }

  /** strings.TrimSpace. */
  function TrimSpace(s: string): string {
    if s == "" then s
    else if IsSpace(s[0]) then TrimSpace(s[1..])
    else if IsSpace(s[|s| - 1]) then TrimSpace(s[..|s| - 1])
    else s
  }

  /** A text that TrimSpace leaves alone. */
  predicate Tight(s: string) {
    s == "" || (!IsSpace(s[0]) && !IsSpace(s[|s| - 1]))
  }

  /** strings.Trim(s, "[]"). */
  function TrimBrackets(s: string): string {
    if s == "" then s
    else if s[0] == '[' || s[0] == ']' then TrimBrackets(s[1..])
    else if s[|s| - 1] == '[' || s[|s| - 1] == ']' then TrimBrackets(s[..|s| - 1])
    else s
  }

  lemma {:induction false} SplitAtSeparator(a: string, sep: char, b: string)
    requires sep !in a
    ensures Split(a + [sep] + b, sep) == [a] + Split(b, sep)
  {
    var s := a + [sep] + b;
    if a == "" {
      assert s[1..] == b;
    } else {
      assert s[1..] == a[1..] + [sep] + b;
      SplitAtSeparator(a[1..], sep, b);
      assert [s[0]] + a[1..] == a;
    }
  }

  lemma {:induction false} SplitWithoutSeparator(a: string, sep: char)
    requires sep !in a
    ensures Split(a, sep) == [a]
  {
    if a != "" {
      SplitWithoutSeparator(a[1..], sep);
      assert [a[0]] + a[1..] == a;
    }
  }

  /** Splitting undoes joining as long as no piece holds the separator. */
  lemma {:induction false} SplitUndoesJoin(pieces: seq<string>, sep: char)
    requires pieces != [] && forall p :: p in pieces ==> sep !in p
    ensures Split(Join(pieces, sep), sep) == pieces
  {
    if |pieces| == 1 {
      SplitWithoutSeparator(pieces[0], sep);
    } else {
      SplitUndoesJoin(pieces[1..], sep);
      SplitAtSeparator(pieces[0], sep, Join(pieces[1..], sep));
      assert pieces == [pieces[0]] + pieces[1..];
    }
  }

  /** Splitting newline-terminated lines gives them back, before the pieces of what follows. */
  lemma {:induction false} SplitUnlines(lines: seq<string>, last: string)
    requires forall l :: l in lines ==> '\n' !in l
    ensures Split(Unlines(lines) + last, '\n') == lines + Split(last, '\n')
  {
    if lines == [] {
      assert Unlines(lines) + last == last;
    } else {
      SplitUnlines(lines[1..], last);
      assert Unlines(lines) + last == lines[0] + ['\n'] + (Unlines(lines[1..]) + last);
      SplitAtSeparator(lines[0], '\n', Unlines(lines[1..]) + last);
      assert lines + Split(last, '\n') == [lines[0]] + (lines[1..] + Split(last, '\n'));
    }
  }

  /** Text without the separator only lengthens the first piece. */
  lemma {:induction false} SplitAfterPlain(a: string, b: string, sep: char)
    requires sep !in a
    ensures Split(a + b, sep) == [a + Split(b, sep)[0]] + Split(b, sep)[1..]
  {
    if a == "" {
      assert a + b == b && a + Split(b, sep)[0] == Split(b, sep)[0];
    } else {
      assert (a + b)[1..] == a[1..] + b;
      SplitAfterPlain(a[1..], b, sep);
      assert [a[0]] + (a[1..] + Split(b, sep)[0]) == a + Split(b, sep)[0];
    }
  }

  lemma {:induction false} UnlinesConcat(a: seq<string>, b: seq<string>)
    ensures Unlines(a + b) == Unlines(a) + Unlines(b)
  {
    if a == [] {
      assert a + b == b;
    } else {
      assert (a + b)[1..] == a[1..] + b;
      UnlinesConcat(a[1..], b);
    }
  }

  /** Splitting distributes over a trailing separator. */
  lemma {:induction false} SplitTrailing(a: string, sep: char)
    ensures Split(a + [sep], sep) == Split(a, sep) + [""]
  {
    if a == "" {
      assert (a + [sep])[1..] == "";
    } else {
      assert (a + [sep])[1..] == a[1..] + [sep];
      SplitTrailing(a[1..], sep);
    }
  }

  /** The two sides of the first '=' are recovered, whatever the value holds. */
  lemma {:induction false} CutLine(k: string, v: string)
    requires '=' !in k
    ensures Cut(k + "=" + v) == Some((k, v))
  {
    var line := k + "=" + v;
    if k == "" {
      assert line[1..] == v;
    } else {
      assert line[1..] == k[1..] + "=" + v;
      CutLine(k[1..], v);
      assert [line[0]] + k[1..] == k;
    }
  }

  /** Cutting loses nothing. */
  lemma {:induction false} CutParts(line: string)
    ensures Cut(line).Some? ==>
              line == Cut(line).value.0 + "=" + Cut(line).value.1 && '=' !in Cut(line).value.0
  {
    if line != "" && line[0] != '=' {
      CutParts(line[1..]);
    }
  }

  /** A line that starts with `k=` is cut at that sign. */
  lemma CutPrefix(k: string, line: string)
    requires '=' !in k
    ensures k + "=" <= line <==> (Cut(line).Some? && Cut(line).value.0 == k)
    ensures k + "=" <= line ==> Cut(line).value.1 == line[|k| + 1..]
  {
    if k + "=" <= line {
      assert line == k + "=" + line[|k| + 1..];
      CutLine(k, line[|k| + 1..]);
    } else {
      CutParts(line);
    }
  }

  lemma {:induction false} TightLineIsTrimmed(s: string)
    requires Tight(s)
    ensures TrimSpace(s) == s
  {
  }
}
