/**
 * A file's content as the line editor sees it: `content.splitlines(keepends=True)`
 * (splitting at "\n" only), `"".join(lines)`, and `line.rstrip("\n")`.
 */
module Lines {

  /** `s.rstrip("\n")`: `s` without its trailing newlines. */
  function StripNewlines(s: string): (r: string)
    ensures r <= s
    ensures r == "" || r[|r| - 1] != '\n'
    ensures forall i | |r| <= i < |s| :: s[i] == '\n'
  {
    if s != "" && s[|s| - 1] == '\n' then StripNewlines(s[..|s| - 1]) else s
  }

  lemma StripNewlinesAppended(s: string)
    ensures StripNewlines(s + "\n") == StripNewlines(s)
  {
    assert (s + "\n")[..|s|] == s;
  }

  /** The lines with their newlines stripped: `[ln.rstrip("\n") for ln in lines]`. */
  function Texts(lines: seq<string>): (r: seq<string>)
    ensures |r| == |lines|
  {
    seq(|lines|, i requires 0 <= i < |lines| => StripNewlines(lines[i]))
  }

  /** `s.splitlines(keepends=True)` when "\n" is the only line separator. */
  function SplitLines(s: string): (lines: seq<string>)
    ensures lines == [] <==> s == ""
  {
    if s == "" then []
    else
      var rest := SplitLines(s[1..]);
      if s[0] == '\n' || rest == [] then [[s[0]]] + rest
      else [[s[0]] + rest[0]] + rest[1..]
  }

  /** `"".join(lines)`. */
  function Join(lines: seq<string>): string {
    if lines == [] then "" else lines[0] + Join(lines[1..])
  }

  /** One line as `splitlines(keepends=True)` yields it: not empty, "\n" at most at its end. */
  predicate IsLine(l: string) {
    l != "" && forall i | 0 <= i < |l| - 1 :: l[i] != '\n'
  }

  predicate Terminated(l: string) {
    l != "" && l[|l| - 1] == '\n'
  }

  /** Every element is a line, and every line but the last ends with "\n". */
  predicate WellFormed(lines: seq<string>) {
    && (forall i | 0 <= i < |lines| :: IsLine(lines[i]))
    && (forall i | 0 <= i < |lines| - 1 :: Terminated(lines[i]))
  }

  lemma {:induction false} JoinAppend(a: seq<string>, b: seq<string>)
    ensures Join(a + b) == Join(a) + Join(b)
  {
    if a != [] {
      assert (a + b)[1..] == a[1..] + b;
      JoinAppend(a[1..], b);
    } else {
      assert a + b == b;
    }
  }

  /** Splitting loses nothing: joining the lines gives the content back. */
  lemma {:induction false} JoinOfSplit(s: string)
    ensures Join(SplitLines(s)) == s
  {
    if s != "" {
      var rest := SplitLines(s[1..]);
      JoinOfSplit(s[1..]);
      if s[0] != '\n' && rest != [] {
        var lines := [[s[0]] + rest[0]] + rest[1..];
        assert lines[1..] == rest[1..];
        assert Join(rest) == rest[0] + Join(rest[1..]);
      }
    }
  }

  /** Splitting yields well-formed lines. */
  lemma {:induction false} SplitWellFormed(s: string)
    ensures WellFormed(SplitLines(s))
  {
    if s != "" {
      var rest := SplitLines(s[1..]);
      SplitWellFormed(s[1..]);
      var lines := SplitLines(s);
      if s[0] == '\n' {
        assert lines == [[s[0]]] + rest;
        forall i | 0 <= i < |lines| ensures IsLine(lines[i]) {
          if i > 0 { assert lines[i] == rest[i - 1]; }
        }
        forall i | 0 <= i < |lines| - 1 ensures Terminated(lines[i]) {
          if i > 0 { assert lines[i] == rest[i - 1]; }
        }
      } else if rest != [] {
        var first := [s[0]] + rest[0];
        assert lines == [first] + rest[1..];
        assert IsLine(rest[0]);
        forall i | 0 <= i < |first| - 1 ensures first[i] != '\n' {
          if i > 0 { assert first[i] == rest[0][i - 1]; }
        }
        forall i | 0 <= i < |lines| ensures IsLine(lines[i]) {
          if i > 0 { assert lines[i] == rest[i]; }
        }
        forall i | 0 <= i < |lines| - 1 ensures Terminated(lines[i]) {
          if i > 0 { assert lines[i] == rest[i]; } else { assert Terminated(rest[0]); }
        }
      }
    }
  }

  lemma {:induction false} SplitTerminatedLine(a: string, b: string)
    requires IsLine(a) && Terminated(a)
    ensures SplitLines(a + b) == [a] + SplitLines(b)
  {
    if |a| == 1 {
      assert (a + b)[1..] == b;
      assert [(a + b)[0]] == a;
    } else {
      assert a[0] != '\n';
      var tail := a[1..];
      assert IsLine(tail) by {
        forall i | 0 <= i < |tail| - 1 ensures tail[i] != '\n' {
          assert tail[i] == a[i + 1];
        }
      }
      assert (a + b)[1..] == tail + b;
      SplitTerminatedLine(tail, b);
      assert [a[0]] + tail == a;
    }
  }

  lemma {:induction false} SplitLastLine(a: string)
    requires IsLine(a) && !Terminated(a)
    ensures SplitLines(a) == [a]
  {
    if |a| > 1 {
      assert a[0] != '\n';
      var tail := a[1..];
      assert IsLine(tail) by {
        forall i | 0 <= i < |tail| - 1 ensures tail[i] != '\n' {
          assert tail[i] == a[i + 1];
        }
      }
      SplitLastLine(tail);
      assert [a[0]] + tail == a;
    } else {
      assert a[1..] == "";
      assert [a[0]] == a;
    }
  }

  /** Well-formed lines survive a join followed by a split unchanged. */
  lemma {:induction false} SplitOfJoin(lines: seq<string>)
    requires WellFormed(lines)
    ensures SplitLines(Join(lines)) == lines
  {
    if lines != [] {
      var a, rest := lines[0], lines[1..];
      assert IsLine(a);
      assert WellFormed(rest) by {
        forall i | 0 <= i < |rest| ensures IsLine(rest[i]) { assert rest[i] == lines[i + 1]; }
        forall i | 0 <= i < |rest| - 1 ensures Terminated(rest[i]) { assert rest[i] == lines[i + 1]; }
      }
      if rest == [] {
        assert Join(lines) == a + "";
        if Terminated(a) {
          SplitTerminatedLine(a, "");
        } else {
          assert a + "" == a;
          SplitLastLine(a);
        }
        assert lines == [a];
      } else {
        assert Terminated(a);
        SplitTerminatedLine(a, Join(rest));
        SplitOfJoin(rest);
        assert [a] + rest == lines;
      }
    }
  }

  /** Every line but the last, then the last with a "\n" added if it lacked one. */
  function CloseLast(lines: seq<string>): seq<string> {
    if lines == [] || Terminated(lines[|lines| - 1]) then lines
    else lines[..|lines| - 1] + [lines[|lines| - 1] + "\n"]
  }

  /** Closing the last line adds a "\n" to the content only when it lacked a final one. */
  lemma CloseLastJoin(lines: seq<string>)
    requires WellFormed(lines)
    ensures var s := Join(lines);
      Join(CloseLast(lines)) == if s != "" && s[|s| - 1] != '\n' then s + "\n" else s
  {
    if lines != [] {
      var k := |lines| - 1;
      var last := lines[k];
      assert lines == lines[..k] + [last];
      JoinAppend(lines[..k], [last]);
      assert Join([last]) == last;
      assert IsLine(last);
      if !Terminated(last) {
        JoinAppend(lines[..k], [last + "\n"]);
        assert Join([last + "\n"]) == last + "\n";
      }
    }
  }

  /** Closing the last line keeps the text of every line. */
  lemma CloseLastTexts(lines: seq<string>)
    ensures Texts(CloseLast(lines)) == Texts(lines)
  {
    if lines != [] && !Terminated(lines[|lines| - 1]) {
      var k := |lines| - 1;
      StripNewlinesAppended(lines[k]);
      assert Texts(CloseLast(lines))[k] == Texts(lines)[k];
    }
  }

  /** Closing the last line and adding one more terminated line stays well formed. */
  lemma CloseLastWellFormed(lines: seq<string>, l: string)
    requires WellFormed(lines) && IsLine(l) && Terminated(l)
    ensures WellFormed(CloseLast(lines) + [l])
  {
    var closed := CloseLast(lines);
    if lines != [] && !Terminated(lines[|lines| - 1]) {
      var k := |lines| - 1;
      assert IsLine(lines[k]);
      assert IsLine(lines[k] + "\n");
    }
    var all := closed + [l];
    assert forall i | 0 <= i < |closed| :: all[i] == closed[i];
  }
}
