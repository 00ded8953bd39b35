/**
 * `users.txt` as the sequence of raw lines that Python's text-mode file
 * iterator yields (`for line in f`): every line keeps its terminating '\n',
 * except possibly the last one. Writing text in append mode adds the text
 * to the end of the file's content; the new lines are those of the longer
 * content, so text appended after an unterminated last line continues that
 * line.
 */
module LineFile {
  import opened PyStr

  /** A raw line: non-empty, with '\n' at most as its final character. */
  predicate IsLine(l: string) {
    |l| > 0 && '\n' !in l[..|l| - 1]
  }

  predicate Terminated(l: string) {
    |l| > 0 && l[|l| - 1] == '\n'
  }

  /** What a file iterator can yield: lines, all terminated but the last. */
  predicate WellFormed(ls: seq<string>) {
    && (forall i :: 0 <= i < |ls| ==> IsLine(ls[i]))
    && (forall i :: 0 <= i < |ls| - 1 ==> Terminated(ls[i]))
  }

  /** The file ends with a newline (or is empty), so an append starts a new line. */
  predicate EndsClean(ls: seq<string>) {
    ls == [] || Terminated(ls[|ls| - 1])
  }

  /** The content of a file with lines `ls`. */
  function Join(ls: seq<string>): string {
    if ls == [] then "" else ls[0] + Join(ls[1..])
  }

  /** Length of the first line of `s`: up to and including the first '\n',
      or all of `s` when it has none. */
  function LineLength(s: string): (k: nat)
    requires s != []
    ensures 0 < k <= |s|
    ensures '\n' !in s[..k - 1]
    ensures k < |s| ==> s[k - 1] == '\n'
  {
    if s[0] == '\n' || |s| == 1 then 1
    else
      var k := LineLength(s[1..]);
      assert s[..k] == [s[0]] + s[1..][..k - 1];
      k + 1
  }

  /** The first line is the shortest prefix that ends in '\n' or exhausts `s`. */
  lemma LineLengthUnique(s: string, k: nat)
    requires 0 < k <= |s| && '\n' !in s[..k - 1]
    requires k < |s| ==> s[k - 1] == '\n'
    ensures LineLength(s) == k
  {
  }

  /** The lines of a file whose content is `s`, as the file iterator yields
      them; joining them gives `s` back. */
  function SplitLines(s: string): (ls: seq<string>)
    ensures Join(ls) == s
    decreases |s|
  {
    if s == [] then []
    else
      var k := LineLength(s);
      var rest := SplitLines(s[k..]);
      assert s == s[..k] + s[k..];
      [s[..k]] + rest
  }

  /** What `SplitLines` yields is what a file iterator can yield. */
  lemma {:induction false} SplitWellFormed(s: string)
    ensures WellFormed(SplitLines(s))
    decreases |s|
  {
    if s != [] {
      var k := LineLength(s);
      var l, rest := s[..k], SplitLines(s[k..]);
      SplitWellFormed(s[k..]);
      var ls := SplitLines(s);
      assert ls == [l] + rest;
      assert l[..k - 1] == s[..k - 1];
      assert rest != [] ==> s[k..] != [];
      forall i | 0 < i < |ls| ensures ls[i] == rest[i - 1] {
      }
    }
  }

  /** Re-reading a saved file yields the same lines: `SplitLines` inverts
      `Join` on every line sequence a file can have. */
  lemma {:induction false} SplitJoin(ls: seq<string>)
    requires WellFormed(ls)
    ensures SplitLines(Join(ls)) == ls
  {
    if ls != [] {
      var l, rest := ls[0], ls[1..];
      assert WellFormed(rest) by {
        forall i | 0 <= i < |rest| ensures IsLine(rest[i]) { assert rest[i] == ls[i + 1]; }
        forall i | 0 <= i < |rest| - 1 ensures Terminated(rest[i]) { assert rest[i] == ls[i + 1]; }
      }
      var s := Join(ls);
      assert s == l + Join(rest);
      assert IsLine(ls[0]);
      assert s[..|l|] == l;
      assert Join(rest) != [] ==> rest != [] && Terminated(ls[0]);
      LineLengthUnique(s, |l|);
      assert s[|l|..] == Join(rest);
      SplitJoin(rest);
    }
  }

  /** Content that ends in '\n' splits independently of what follows it. */
  lemma {:induction false} SplitAppend(a: string, b: string)
    requires a == [] || a[|a| - 1] == '\n'
    ensures SplitLines(a + b) == SplitLines(a) + SplitLines(b)
    decreases |a|
  {
    if a != [] {
      var k := LineLength(a);
      var x, rest, more := a[..k], SplitLines(a[k..]), SplitLines(b);
      assert a[k..] == [] || a[k..][|a[k..]| - 1] == a[|a| - 1];
      SplitAppend(a[k..], b);
      SplitAfterFirst(a, b, k);
      SplitLinesFirst(a);
      assert [x] + (rest + more) == ([x] + rest) + more;
    } else {
      assert a + b == b;
    }
  }

  /** The first line of `a + b` is that of `a`, and the lines after it are
      those of the rest of `a` followed by `b`. */
  lemma SplitAfterFirst(a: string, b: string, k: nat)
    requires a != [] && a[|a| - 1] == '\n' && k == LineLength(a)
    ensures SplitLines(a + b) == [a[..k]] + SplitLines(a[k..] + b)
  {
    var s := a + b;
    FirstLineOfAppend(a, b, k);
    SplitLinesFirst(s);
    assert s[k..] == a[k..] + b;
  }

  lemma SplitLinesFirst(s: string)
    requires s != []
    ensures SplitLines(s) == [s[..LineLength(s)]] + SplitLines(s[LineLength(s)..])
  {
  }

  /** The first line of content ending in '\n' is still the first line
      when more text follows. */
  lemma FirstLineOfAppend(a: string, b: string, k: nat)
    requires a != [] && a[|a| - 1] == '\n' && k == LineLength(a)
    ensures a + b != [] && LineLength(a + b) == k && (a + b)[..k] == a[..k]
  {
    var s := a + b;
    assert s[..k] == a[..k];
    assert s[..k - 1] == a[..k - 1];
    LineLengthUnique(s, k);
  }

  /** The last character of the content is the last character of the last line. */
  lemma {:induction false} JoinEnd(ls: seq<string>)
    requires WellFormed(ls) && ls != []
    ensures Join(ls) != [] && Join(ls)[|Join(ls)| - 1] == ls[|ls| - 1][|ls[|ls| - 1]| - 1]
  {
    assert IsLine(ls[0]);
    if |ls| > 1 {
      var rest := ls[1..];
      assert WellFormed(rest) by {
        forall i | 0 <= i < |rest| ensures IsLine(rest[i]) { assert rest[i] == ls[i + 1]; }
        forall i | 0 <= i < |rest| - 1 ensures Terminated(rest[i]) { assert rest[i] == ls[i + 1]; }
      }
      JoinEnd(rest);
    }
  }

  /** A file ends cleanly exactly when its content is empty or ends in '\n'. */
  lemma EndsCleanContent(ls: seq<string>)
    requires WellFormed(ls)
    ensures EndsClean(ls) <==> (Join(ls) == [] || Join(ls)[|Join(ls)| - 1] == '\n')
  {
    if ls != [] { JoinEnd(ls); }
  }

  /** The lines after `f.write(text)` on a file opened in append mode. */
  function AppendText(ls: seq<string>, text: string): (r: seq<string>)
    ensures WellFormed(r)
  {
    SplitWellFormed(Join(ls) + text);
    SplitLines(Join(ls) + text)
  }

  /** Appending to a file that ends cleanly adds the lines of `text` after
      the present ones and changes nothing before them. */
  lemma AppendAfterClean(ls: seq<string>, text: string)
    requires WellFormed(ls) && EndsClean(ls)
    ensures AppendText(ls, text) == ls + SplitLines(text)
  {
    EndsCleanContent(ls);
    SplitAppend(Join(ls), text);
    SplitJoin(ls);
  }

  /** A text without '\n' inside, written with a trailing '\n', is one line. */
  lemma SplitOneLine(x: string)
    requires '\n' !in x
    ensures SplitLines(x + "\n") == [x + "\n"]
  {
    var s := x + "\n";
    assert s[..|s| - 1] == x;
    LineLengthUnique(s, |s|);
    assert s[..|s|] == s && s[|s|..] == [];
  }

  /** Appending text that ends in '\n' always leaves the file ending cleanly. */
  lemma AppendEndsClean(ls: seq<string>, text: string)
    requires text != [] && text[|text| - 1] == '\n'
    ensures EndsClean(AppendText(ls, text))
  {
    var r := AppendText(ls, text);
    EndsCleanContent(r);
  }

  /** `read_user_ids`: the stripped form of every line whose stripped form
      is non-empty, in file order. */
  function ReadIds(ls: seq<string>): (ids: seq<string>)
    ensures |ids| <= |ls|
  {
    if ls == [] then []
    else
      var s := Strip(ls[0]);
      (if s == "" then [] else [s]) + ReadIds(ls[1..])
  }

  /** The form every id that can come out of the file has: non-empty,
      neither starting nor ending with whitespace (so already stripped, see
      PlainIdIsStripped), and free of '\n'. */
  predicate IsPlainId(x: string) {
    x != "" && !IsSpace(x[0]) && !IsSpace(x[|x| - 1]) && '\n' !in x
  }

  lemma PlainIdIsStripped(x: string)
    requires IsPlainId(x)
    ensures Strip(x) == x
  {
    StripUnique("", x, "");
    assert "" + x + "" == x;
  }

  predicate AllPlain(ids: seq<string>) {
    forall i :: 0 <= i < |ids| ==> IsPlainId(ids[i])
  }

  lemma {:induction false} ReadIdsAppend(a: seq<string>, b: seq<string>)
    ensures ReadIds(a + b) == ReadIds(a) + ReadIds(b)
  {
    if a != [] {
      var e := if Strip(a[0]) == "" then [] else [Strip(a[0])];
      assert (a + b)[0] == a[0];
      assert (a + b)[1..] == a[1..] + b;
      assert ReadIds(a + b) == e + ReadIds(a[1..] + b);
      assert ReadIds(a) == e + ReadIds(a[1..]);
      ReadIdsAppend(a[1..], b);
    } else {
      assert a + b == b;
    }
  }

  /** An id is read back exactly when some line strips to it. */
  lemma {:induction false} ReadIdsMembers(ls: seq<string>, x: string)
    ensures x in ReadIds(ls) <==> x != "" && exists i :: 0 <= i < |ls| && Strip(ls[i]) == x
  {
    if ls != [] {
      ReadIdsMembers(ls[1..], x);
      if x != "" && Strip(ls[0]) != x && (exists i :: 0 <= i < |ls| && Strip(ls[i]) == x) {
        var i :| 0 <= i < |ls| && Strip(ls[i]) == x;
        assert ls[1..][i - 1] == ls[i];
      }
      if exists i :: 0 <= i < |ls[1..]| && Strip(ls[1..][i]) == x {
        var i :| 0 <= i < |ls[1..]| && Strip(ls[1..][i]) == x;
        assert ls[i + 1] == ls[1..][i];
      }
    }
  }

  /** Stripping a line removes its '\n'. */
  lemma StripLine(l: string)
    requires IsLine(l)
    ensures '\n' !in Strip(l)
  {
    var n := Indent(l);
    var r := Strip(l);
    if r != [] && l[|l| - 1] == '\n' {
      assert r == l[..|l| - 1][n..n + |r|];
    } else if r != [] {
      assert l == l[..|l| - 1] + [l[|l| - 1]];
      assert '\n' !in l;
      assert forall i :: 0 <= i < |r| ==> r[i] == l[n + i];
    }
  }

  /** Everything `read_user_ids` returns from a readable file is a plain id. */
  lemma {:induction false} ReadIdsPlain(ls: seq<string>)
    requires WellFormed(ls)
    ensures AllPlain(ReadIds(ls))
  {
    if ls != [] {
      var rest := ls[1..];
      assert WellFormed(rest) by {
        forall i | 0 <= i < |rest| ensures IsLine(rest[i]) { assert rest[i] == ls[i + 1]; }
        forall i | 0 <= i < |rest| - 1 ensures Terminated(rest[i]) { assert rest[i] == ls[i + 1]; }
      }
      ReadIdsPlain(rest);
      assert IsLine(ls[0]);
      StripLine(ls[0]);
    }
  }

  /** A plain id written as `x + "\n"` reads back as `x`. */
  lemma ReadWrittenId(x: string)
    requires IsPlainId(x)
    ensures ReadIds([x + "\n"]) == [x]
  {
    assert AllSpace("\n");
    StripUnique("", x, "\n");
    assert "" + x + "\n" == x + "\n";
  }

  /** The lines `for user in users: f.write(user + "\n")` writes into an
      emptied file, when no id holds a '\n'. */
  function Render(ids: seq<string>): (ls: seq<string>)
    ensures |ls| == |ids|
  {
    if ids == [] then [] else Render(ids[..|ids| - 1]) + [ids[|ids| - 1] + "\n"]
  }

  /** A rewritten file is well formed and ends cleanly. */
  lemma {:induction false} RenderWellFormed(ids: seq<string>)
    requires AllPlain(ids)
    ensures WellFormed(Render(ids)) && EndsClean(Render(ids))
    ensures forall i :: 0 <= i < |ids| ==> Render(ids)[i] == ids[i] + "\n"
  {
    if ids != [] {
      var init, x := ids[..|ids| - 1], ids[|ids| - 1];
      RenderWellFormed(init);
      var prev, line := Render(init), x + "\n";
      assert line[..|x|] == x;
      WellFormedSnoc(prev, line);
      assert Render(ids) == prev + [line];
      forall i | 0 <= i < |ids| ensures Render(ids)[i] == ids[i] + "\n" {
        if i < |init| {
          assert Render(ids)[i] == prev[i] && ids[i] == init[i];
        }
      }
    }
  }

  /** A line added after a file that ends cleanly keeps it well formed. */
  lemma WellFormedSnoc(ls: seq<string>, l: string)
    requires WellFormed(ls) && EndsClean(ls) && IsLine(l)
    ensures WellFormed(ls + [l])
    ensures Terminated(l) ==> EndsClean(ls + [l])
  {
    forall i | 0 <= i < |ls| ensures (ls + [l])[i] == ls[i] {
    }
  }

  /** Rewrite then read gives back the same ids, in the same order. */
  lemma {:induction false} RenderRead(ids: seq<string>)
    requires AllPlain(ids)
    ensures ReadIds(Render(ids)) == ids
  {
    if ids != [] {
      var init, x := ids[..|ids| - 1], ids[|ids| - 1];
      RenderRead(init);
      ReadIdsAppend(Render(init), [x + "\n"]);
      ReadWrittenId(x);
      assert ids == init + [x];
    }
  }
}
