/** Splicing a marked section into /etc/fstab (src/ClusterBootstrap/deploy.py, insert_fstab_section and
    remove_fstab_section), over the text the node returns and the text written back. */
module Fstab {

  // ---- Substrings ----------------------------------------------------------------------------------

  predicate Matches(t: string, m: string, i: int) {
    0 <= i && i + |m| <= |t| && t[i..i + |m|] == m
  }

  function FindFrom(t: string, m: string, i: nat): (r: int)
    ensures r == -1 || (i <= r && Matches(t, m, r))
    decreases |t| - i
  {
    if i + |m| > |t| then -1 else if Matches(t, m, i) then i else FindFrom(t, m, i + 1)
  }

  /** Python's str.find: the first match, or -1. */
  function Find(t: string, m: string): (r: int)
    ensures r == -1 || Matches(t, m, r)
  {
    FindFrom(t, m, 0)
  }

  ghost predicate Free(t: string, m: string) {
    forall i :: !Matches(t, m, i)
  }

  lemma {:induction false} FindsFrom(t: string, m: string, i: nat, k: nat)
    requires i <= k && Matches(t, m, k) && forall j | i <= j < k :: !Matches(t, m, j)
    ensures FindFrom(t, m, i) == k
    decreases k - i
  {
    if i < k { FindsFrom(t, m, i + 1, k); }
  }

  lemma Finds(t: string, m: string, k: nat)
    requires Matches(t, m, k) && forall j | 0 <= j < k :: !Matches(t, m, j)
    ensures Find(t, m) == k
  {
    FindsFrom(t, m, 0, k);
  }

  lemma {:induction false} FindsNothingFrom(t: string, m: string, i: nat)
    requires Free(t, m)
    ensures FindFrom(t, m, i) == -1
    decreases |t| - i
  {
    if i + |m| <= |t| { FindsNothingFrom(t, m, i + 1); }
  }

  /** A negative result says exactly that there is no match. */
  lemma FindNegative(t: string, m: string)
    ensures Find(t, m) < 0 <==> Free(t, m)
  {
    if Free(t, m) {
      FindsNothingFrom(t, m, 0);
    } else {
      var i :| Matches(t, m, i);
      FindsSome(t, m, 0, i);
    }
  }

  lemma {:induction false} FindsSome(t: string, m: string, i: nat, k: nat)
    requires i <= k && Matches(t, m, k)
    ensures FindFrom(t, m, i) >= 0
    decreases k - i
  {
    if !Matches(t, m, i) { FindsSome(t, m, i + 1, k); }
  }

  // ---- Lines ---------------------------------------------------------------------------------------

  /** A newline can only be the last character. */
  predicate LineLike(m: string) {
    forall k | 0 <= k < |m| - 1 :: m[k] != '\n'
  }

  predicate Terminated(a: string) {
    a == "" || a[|a| - 1] == '\n'
  }

  lemma MatchChars(t: string, m: string, i: int)
    requires Matches(t, m, i)
    ensures forall k | 0 <= k < |m| :: t[i + k] == m[k]
  {
    forall k | 0 <= k < |m| ensures t[i + k] == m[k] {
      assert t[i..i + |m|][k] == t[i + k];
    }
  }

  lemma OneLine(t: string, m: string, i: int, j: int)
    requires Matches(t, m, i) && LineLike(m) && i <= j < i + |m| - 1
    ensures t[j] != '\n'
  {
    MatchChars(t, m, i);
    assert t[j] == t[i + (j - i)];
  }

  /** No match of a line straddles the end of a terminated text: it lies wholly before or wholly after the join. */
  lemma NoStraddle(a: string, b: string, m: string, i: int)
    requires Terminated(a) && LineLike(m) && m != ""
    ensures Matches(a + b, m, i) <==> Matches(a, m, i) || (i >= |a| && Matches(b, m, i - |a|))
  {
    if Matches(a + b, m, i) && i < |a| && |a| < i + |m| {
      OneLine(a + b, m, i, |a| - 1);
    }
    if 0 <= i && i + |m| <= |a| { SliceLeft(a, b, i, i + |m|); }
    if i >= |a| && i + |m| <= |a| + |b| { SliceRight(a, b, i - |a|, i - |a| + |m|); }
  }

  lemma SliceLeft(a: string, b: string, i: nat, j: nat)
    requires i <= j <= |a|
    ensures (a + b)[i..j] == a[i..j]
  {
  }

  lemma SliceRight(a: string, b: string, i: nat, j: nat)
    requires i <= j <= |b|
    ensures (a + b)[|a| + i..|a| + j] == b[i..j]
  {
  }

  lemma FreeConcat(a: string, b: string, m: string)
    requires Terminated(a) && LineLike(m) && m != ""
    ensures Free(a + b, m) <==> Free(a, m) && Free(b, m)
  {
    forall i { NoStraddle(a, b, m, i); }
    if Free(a + b, m) {
      forall i ensures !Matches(b, m, i) { NoStraddle(a, b, m, i + |a|); }
    }
  }

  /** After a terminated text without the line, the first match is the first match of what follows. */
  lemma FindAfter(a: string, b: string, m: string)
    requires Terminated(a) && LineLike(m) && m != "" && Free(a, m)
    ensures Find(a + b, m) == if Find(b, m) < 0 then -1 else |a| + Find(b, m)
  {
    FindNegative(b, m);
    if Free(b, m) {
      FreeConcat(a, b, m);
      FindsNothingFrom(a + b, m, 0);
    } else {
      FindIsFirst(b, m);
      NoStraddle(a, b, m, |a| + Find(b, m));
      forall j | 0 <= j < |a| + Find(b, m) ensures !Matches(a + b, m, j) { NoStraddle(a, b, m, j); }
      Finds(a + b, m, |a| + Find(b, m));
    }
  }

  lemma FindIsFirst(t: string, m: string)
    requires Find(t, m) >= 0
    ensures Matches(t, m, Find(t, m)) && forall j | 0 <= j < Find(t, m) :: !Matches(t, m, j)
  {
    FindFromIsFirst(t, m, 0);
  }

  lemma {:induction false} FindFromIsFirst(t: string, m: string, i: nat)
    requires FindFrom(t, m, i) >= 0
    ensures Matches(t, m, FindFrom(t, m, i)) && forall j | i <= j < FindFrom(t, m, i) :: !Matches(t, m, j)
    decreases |t| - i
  {
    if !Matches(t, m, i) { FindFromIsFirst(t, m, i + 1); }
  }

  // ---- The original --------------------------------------------------------------------------------

  function Hashes(n: nat): string {
    seq(n, _ => '#')
  }

  function StartMark(sec: string): string { Hashes(14) + sec + "MOUNT" + Hashes(17) + "\n" }
  function EndMark(sec: string): string { Hashes(13) + sec + "MOUNTEND" + Hashes(15) + "\n" }

  const NO_FILE := "No such file or directory"

  /** Appends a newline unless there is one. */
  function Norm(t: string): string {
    if t != "" && t[|t| - 1] == '\n' then t else t + "\n"
  }

  function Section(sec: string, content: string): string {
    StartMark(sec) + Norm(content) + EndMark(sec)
  }

  /** The file after insert_fstab_section. */
  function Insert(text: string, sec: string, content: string): string {
    if Find(text, NO_FILE) != -1 then Section(sec, content)
    else
      var (st, end) := (Find(text, StartMark(sec)), Find(text, EndMark(sec)));
      if st > 1 then
        if end < 0 then text[..st] + Section(sec, content)
        else text[..st] + Section(sec, content) + text[end + |EndMark(sec)|..]
      else Norm(text) + Section(sec, content)
  }

  /** The file after remove_fstab_section; it stays as it was unless a start mark is found past the first two characters. */
  function Remove(text: string, sec: string): string {
    if Find(text, NO_FILE) != -1 then text
    else
      var (st, end) := (Find(text, StartMark(sec)), Find(text, EndMark(sec)));
      if st > 1 then
        if end < 0 then text[..st]
        else text[..st] + text[end + |EndMark(sec)|..]
      else text
  }

  // ---- Marks ---------------------------------------------------------------------------------------

  ghost predicate GoodSection(sec: string) {
    '\n' !in sec && Free(StartMark(sec), NO_FILE) && Free(EndMark(sec), NO_FILE)
  }

  /** The content has no end mark and no error text of its own. */
  ghost predicate GoodContent(sec: string, content: string) {
    Free(Norm(content), EndMark(sec)) && Free(Norm(content), NO_FILE)
  }

  /** Both marks are lines, of one length, and differ. */
  lemma Marks(sec: string)
    requires '\n' !in sec
    ensures LineLike(StartMark(sec)) && LineLike(EndMark(sec)) && LineLike(NO_FILE)
    ensures |StartMark(sec)| == |EndMark(sec)| == |sec| + 37 && StartMark(sec) != EndMark(sec)
    ensures Terminated(StartMark(sec)) && Terminated(EndMark(sec))
    ensures Free(StartMark(sec), EndMark(sec)) && Free(EndMark(sec), StartMark(sec))
  {
    var a, b := StartMark(sec), EndMark(sec);
    assert a[|sec| + 20] == '#' && b[|sec| + 20] == 'D';
    forall i ensures !Matches(a, b, i) && !Matches(b, a, i) {
      SameLength(a, b, i);
      SameLength(b, a, i);
    }
  }

  lemma SameLength(t: string, m: string, i: int)
    requires |t| == |m| && m != ""
    ensures Matches(t, m, i) ==> t == m
  {
    assert t[0..|t|] == t;
  }

  /** Finding the marks in a file that consists of a mark-free terminated text, a section, and anything. */
  lemma FindMarks(sec: string, p: string, content: string, rest: string)
    requires GoodSection(sec) && GoodContent(sec, content) && Terminated(p)
    requires Free(p, StartMark(sec)) && Free(p, EndMark(sec))
    ensures var t := p + Section(sec, content) + rest;
            Find(t, StartMark(sec)) == |p| && Find(t, EndMark(sec)) == |p| + |StartMark(sec)| + |Norm(content)|
  {
    var a, b, c := StartMark(sec), EndMark(sec), Norm(content);
    Marks(sec);
    var t := p + Section(sec, content) + rest;
    assert t == p + (a + (c + (b + rest)));
    Finds(a + (c + (b + rest)), a, 0);
    FindAfter(p, a + (c + (b + rest)), a);
    Finds(b + rest, b, 0);
    FindAfter(c, b + rest, b);
    FindAfter(a, c + (b + rest), b);
    FindAfter(p, a + (c + (b + rest)), b);
  }

  lemma SectionFree(sec: string, content: string)
    requires GoodSection(sec) && GoodContent(sec, content)
    ensures Free(Section(sec, content), NO_FILE)
  {
    var a, b, c := StartMark(sec), EndMark(sec), Norm(content);
    Marks(sec);
    assert Section(sec, content) == a + (c + b);
    FreeConcat(c, b, NO_FILE);
    FreeConcat(a, c + b, NO_FILE);
  }

  /** An existing section is replaced in place, or removed, without touching what surrounds it. */
  lemma ReplaceInPlace(sec: string, p: string, content: string, rest: string, content': string)
    requires GoodSection(sec) && GoodContent(sec, content) && Terminated(p) && |p| >= 2
    requires Free(p, StartMark(sec)) && Free(p, EndMark(sec))
    requires Free(p + Section(sec, content) + rest, NO_FILE)
    ensures Insert(p + Section(sec, content) + rest, sec, content') == p + Section(sec, content') + rest
    ensures Remove(p + Section(sec, content) + rest, sec) == p + rest
  {
    var t := p + Section(sec, content) + rest;
    FindMarks(sec, p, content, rest);
    FindNegative(t, NO_FILE);
    Marks(sec);
    assert t[..|p|] == p;
    assert t[|p| + |StartMark(sec)| + |Norm(content)| + |EndMark(sec)|..] == rest;
  }

  // ---- The exact conditions ------------------------------------------------------------------------

  /** The file, newline included, has no mark, is long enough for a mark after it to be seen, and has no error text. */
  ghost predicate Clean(sec: string, text: string) {
    && |Norm(text)| >= 2
    && Free(Norm(text), StartMark(sec)) && Free(Norm(text), EndMark(sec))
    && Free(text, NO_FILE)
  }

  lemma NormMatch(text: string, m: string, i: int)
    ensures i + |m| <= |text| ==> (Matches(Norm(text), m, i) <==> Matches(text, m, i))
  {
    if 0 <= i && i + |m| <= |text| { assert Norm(text)[i..i + |m|] == text[i..i + |m|]; }
  }

  lemma NormFree(text: string, m: string)
    requires Free(text, m) && m != "" && m[|m| - 1] != '\n'
    ensures Free(Norm(text), m)
  {
    forall i ensures !Matches(Norm(text), m, i) {
      NormMatch(text, m, i);
      if Matches(Norm(text), m, i) { MatchChars(Norm(text), m, i); }
    }
  }

  /** A mark that the file lacks but its newline-completed form has stands at the very end. */
  lemma MarkAtEnd(text: string, m: string) returns (p: string)
    requires Free(text, m) && !Free(Norm(text), m) && LineLike(m) && m != ""
    ensures Norm(text) == p + m && Find(Norm(text), m) == |p|
  {
    var i :| Matches(Norm(text), m, i);
    forall j | Matches(Norm(text), m, j) ensures j == |Norm(text)| - |m| {
      NormMatch(text, m, j);
    }
    p := Norm(text)[..i];
    Finds(Norm(text), m, i);
  }

  lemma FirstInsert(text: string, sec: string, content: string)
    requires Free(text, StartMark(sec))
    ensures Insert(text, sec, content) ==
            if Free(text, NO_FILE) then Norm(text) + Section(sec, content) else Section(sec, content)
  {
    FindNegative(text, NO_FILE);
    FindNegative(text, StartMark(sec));
  }

  /** On a clean file a first insertion is undone by removal and overwritten by a second insertion. */
  lemma CleanWorks(text: string, sec: string, content: string, content': string)
    requires GoodSection(sec) && GoodContent(sec, content) && Clean(sec, text)
    requires Free(text, StartMark(sec))
    ensures Remove(Insert(text, sec, content), sec) == Norm(text)
    ensures Insert(Insert(text, sec, content), sec, content') == Insert(text, sec, content')
  {
    FirstInsert(text, sec, content);
    FirstInsert(text, sec, content');
    NormFree(text, NO_FILE);
    SectionFree(sec, content);
    Marks(sec);
    FreeConcat(Norm(text), Section(sec, content), NO_FILE);
    assert Norm(text) + Section(sec, content) + "" == Norm(text) + Section(sec, content);
    assert Norm(text) + "" == Norm(text);
    assert Norm(text) + Section(sec, content') + "" == Norm(text) + Section(sec, content');
    ReplaceInPlace(sec, Norm(text), content, "", content');
  }

  /** What a second operation sees when the file was not clean. */
  lemma UncleanFails(text: string, sec: string, content: string, content': string)
    requires GoodSection(sec) && GoodContent(sec, content) && !Clean(sec, text)
    requires Free(text, StartMark(sec)) && Free(text, EndMark(sec))
    ensures Remove(Insert(text, sec, content), sec) != Norm(text)
    ensures Insert(Insert(text, sec, content), sec, content') != Insert(text, sec, content')
  {
    FirstInsert(text, sec, content);
    FirstInsert(text, sec, content');
    if !Free(text, NO_FILE) {
      ErrorTextFails(text, sec, content, content');
    } else {
      AppendedFree(text, sec, content);
      if !Free(Norm(text), StartMark(sec)) {
        EndsInStart(text, sec, content, content');
      } else if !Free(Norm(text), EndMark(sec)) {
        EndsInEnd(text, sec, content, content');
      } else {
        TooShort(text, sec, content, content');
      }
    }
  }

  lemma AppendedFree(text: string, sec: string, content: string)
    requires GoodSection(sec) && GoodContent(sec, content) && Free(text, NO_FILE)
    ensures Find(Norm(text) + Section(sec, content), NO_FILE) == -1
  {
    SectionFree(sec, content);
    Marks(sec);
    NormFree(text, NO_FILE);
    FreeConcat(Norm(text), Section(sec, content), NO_FILE);
    FindNegative(Norm(text) + Section(sec, content), NO_FILE);
  }

  lemma ErrorTextFails(text: string, sec: string, content: string, content': string)
    requires GoodSection(sec) && GoodContent(sec, content) && !Free(text, NO_FILE)
    ensures Remove(Section(sec, content), sec) != Norm(text)
    ensures Insert(Section(sec, content), sec, content') != Section(sec, content')
  {
    SectionFree(sec, content);
    BareSection(sec, content, content');
    var i :| Matches(text, NO_FILE, i);
    NormMatch(text, NO_FILE, i);
    assert Matches(Norm(text), NO_FILE, i);
  }

  /** In a file that is nothing but a section the start mark is at index zero and not seen. */
  lemma BareSection(sec: string, content: string, content': string)
    requires GoodSection(sec) && GoodContent(sec, content)
    ensures Remove(Section(sec, content), sec) == Section(sec, content)
    ensures Insert(Section(sec, content), sec, content') == Norm(Section(sec, content)) + Section(sec, content')
    ensures |Insert(Section(sec, content), sec, content')| > |Section(sec, content')|
  {
    SectionFree(sec, content);
    FindNegative(Section(sec, content), NO_FILE);
    assert "" + Section(sec, content) + "" == Section(sec, content);
    FindMarks(sec, "", content, "");
  }

  /** How long the file is after either operation when both marks are found. */
  lemma Lengths(t: string, sec: string, content: string, st: nat, end: nat)
    requires Find(t, NO_FILE) == -1 && Find(t, StartMark(sec)) == st && Find(t, EndMark(sec)) == end
    ensures |Remove(t, sec)| == if st > 1 then st + |t| - end - |EndMark(sec)| else |t|
    ensures |Insert(t, sec, content)| ==
            |Section(sec, content)| + if st > 1 then st + |t| - end - |EndMark(sec)| else |Norm(t)|
  {
  }

  /** A last line equal to the start mark but for its newline becomes a start mark once the newline is added. */
  lemma EndsInStart(text: string, sec: string, content: string, content': string)
    requires GoodSection(sec) && GoodContent(sec, content)
    requires Free(text, StartMark(sec)) && Free(text, EndMark(sec)) && !Free(Norm(text), StartMark(sec))
    requires Find(Norm(text) + Section(sec, content), NO_FILE) == -1
    ensures Remove(Norm(text) + Section(sec, content), sec) != Norm(text)
    ensures Insert(Norm(text) + Section(sec, content), sec, content') != Norm(text) + Section(sec, content')
  {
    var a, b, c := StartMark(sec), EndMark(sec), Norm(content);
    Marks(sec);
    var p := MarkAtEnd(text, a);
    var t := Norm(text) + Section(sec, content);
    FindBefore(Norm(text), Section(sec, content), a);
    if !Free(Norm(text), b) {
      var q := MarkAtEnd(text, b);
      SameEnd(p, a, q, b);
      assert false;
    }
    FindEnd(sec, Norm(text), content);
    Lengths(t, sec, content', |p|, |Norm(text)| + |a| + |c|);
  }

  lemma SameEnd(p: string, a: string, q: string, b: string)
    requires p + a == q + b && |a| == |b|
    ensures a == b
  {
    assert (p + a)[|p|..] == a && (q + b)[|q|..] == b;
  }

  lemma FindStart(sec: string, p: string, content: string)
    requires '\n' !in sec && Terminated(p) && Free(p, StartMark(sec))
    ensures Find(p + Section(sec, content), StartMark(sec)) == |p|
  {
    Marks(sec);
    assert Section(sec, content) == StartMark(sec) + (Norm(content) + EndMark(sec));
    Finds(Section(sec, content), StartMark(sec), 0);
    FindAfter(p, Section(sec, content), StartMark(sec));
  }

  /** A match inside the first part of a join is the first match of the whole. */
  lemma FindBefore(p: string, rest: string, m: string)
    requires Terminated(p) && LineLike(m) && m != "" && Find(p, m) >= 0
    ensures Find(p + rest, m) == Find(p, m)
  {
    var k := Find(p, m);
    FindIsFirst(p, m);
    forall j | 0 <= j < k ensures !Matches(p + rest, m, j) { NoStraddle(p, rest, m, j); }
    NoStraddle(p, rest, m, k);
    Finds(p + rest, m, k);
  }

  lemma FindEnd(sec: string, p: string, content: string)
    requires GoodSection(sec) && GoodContent(sec, content) && Terminated(p) && Free(p, EndMark(sec))
    ensures Find(p + Section(sec, content), EndMark(sec)) == |p| + |StartMark(sec)| + |Norm(content)|
  {
    var a, b, c := StartMark(sec), EndMark(sec), Norm(content);
    Marks(sec);
    assert Section(sec, content) == a + (c + b);
    Finds(b, b, 0);
    FindAfter(c, b, b);
    FindAfter(a, c + b, b);
    FindAfter(p, a + (c + b), b);
  }

  lemma EndsInEnd(text: string, sec: string, content: string, content': string)
    requires GoodSection(sec) && GoodContent(sec, content)
    requires Free(Norm(text), StartMark(sec)) && Free(text, EndMark(sec)) && !Free(Norm(text), EndMark(sec))
    requires Find(Norm(text) + Section(sec, content), NO_FILE) == -1
    ensures Remove(Norm(text) + Section(sec, content), sec) != Norm(text)
    ensures Insert(Norm(text) + Section(sec, content), sec, content') != Norm(text) + Section(sec, content')
  {
    var a, b, c := StartMark(sec), EndMark(sec), Norm(content);
    Marks(sec);
    var p := MarkAtEnd(text, b);
    var t := Norm(text) + Section(sec, content);
    FindBefore(Norm(text), Section(sec, content), b);
    FindStart(sec, Norm(text), content);
    assert t[..|Norm(text)|] == Norm(text);
    assert t[|p| + |b|..] == Section(sec, content);
  }

  /** A mark at index one or zero is not seen. */
  lemma TooShort(text: string, sec: string, content: string, content': string)
    requires GoodSection(sec) && GoodContent(sec, content) && |Norm(text)| < 2
    requires Free(Norm(text), StartMark(sec)) && Free(Norm(text), EndMark(sec))
    requires Find(Norm(text) + Section(sec, content), NO_FILE) == -1
    ensures Remove(Norm(text) + Section(sec, content), sec) != Norm(text)
    ensures Insert(Norm(text) + Section(sec, content), sec, content') != Norm(text) + Section(sec, content')
  {
    assert Norm(text) + Section(sec, content) + "" == Norm(text) + Section(sec, content);
    FindMarks(sec, Norm(text), content, "");
  }

  lemma ErrorInNorm(content: string)
    ensures Free(Norm(content), NO_FILE) <==> Free(content, NO_FILE)
  {
    if Free(content, NO_FILE) {
      NormFree(content, NO_FILE);
    } else {
      var i :| Matches(content, NO_FILE, i);
      NormMatch(content, NO_FILE, i);
      assert Matches(Norm(content), NO_FILE, i);
    }
  }

  /** A section with the error text makes any file containing it look missing. */
  lemma ErrorInSection(p: string, sec: string, content: string)
    requires !Free(content, NO_FILE)
    ensures Find(p + Section(sec, content), NO_FILE) != -1
  {
    ErrorInNorm(content);
    var i :| Matches(Norm(content), NO_FILE, i);
    var a, n := p + StartMark(sec), |NO_FILE|;
    assert p + Section(sec, content) == a + (Norm(content) + EndMark(sec));
    SliceLeft(Norm(content), EndMark(sec), i, i + n);
    SliceRight(a, Norm(content) + EndMark(sec), i, i + n);
    assert Matches(p + Section(sec, content), NO_FILE, |a| + i);
    FindNegative(p + Section(sec, content), NO_FILE);
  }

  /** Content with the error text is never removed again, and is overwritten as promised only in a file that had the
      error text as well. */
  lemma ErrorContentFails(text: string, sec: string, content: string, content': string)
    requires '\n' !in sec && !Free(content, NO_FILE) && Free(text, StartMark(sec))
    ensures Remove(Insert(text, sec, content), sec) != Norm(text)
    ensures Insert(Insert(text, sec, content), sec, content') == Insert(text, sec, content') <==> !Free(text, NO_FILE)
  {
    FirstInsert(text, sec, content);
    FirstInsert(text, sec, content');
    if Free(text, NO_FILE) {
      ErrorInSection(Norm(text), sec, content);
      assert |Norm(text) + Section(sec, content')| > |Section(sec, content')|;
    } else {
      ErrorInSection("", sec, content);
      assert "" + Section(sec, content) == Section(sec, content);
      if Section(sec, content) == Norm(text) { SectionShowsMark(text, sec, content); }
    }
  }

  lemma SectionShowsMark(text: string, sec: string, content: string)
    requires Section(sec, content) == Norm(text)
    ensures Matches(text, StartMark(sec), 0)
  {
    var a := StartMark(sec);
    assert Section(sec, content) == a + (Norm(content) + EndMark(sec));
    SliceLeft(a, Norm(content) + EndMark(sec), 0, |a|);
    NormMatch(text, a, 0);
    assert a[0..|a|] == a;
  }

  /** For a file without marks and content without the end mark, both promises of the original have exact conditions:
      inserting and then removing gives the file back up to a final newline just when the file is clean and the
      content is free of the error text, and inserting twice equals inserting the second content alone in the same
      case, or when both contain the error text. */
  lemma RoundTripExactly(text: string, sec: string, content: string, content': string)
    requires GoodSection(sec) && Free(Norm(content), EndMark(sec))
    requires Free(text, StartMark(sec)) && Free(text, EndMark(sec))
    ensures Remove(Insert(text, sec, content), sec) == Norm(text) <==> Clean(sec, text) && Free(content, NO_FILE)
    ensures Insert(Insert(text, sec, content), sec, content') == Insert(text, sec, content') <==>
            (Clean(sec, text) && Free(content, NO_FILE)) || (!Free(text, NO_FILE) && !Free(content, NO_FILE))
  {
    ErrorInNorm(content);
    if !Free(content, NO_FILE) {
      ErrorContentFails(text, sec, content, content');
    } else if Clean(sec, text) {
      CleanWorks(text, sec, content, content');
    } else {
      UncleanFails(text, sec, content, content');
    }
  }

  // ---- Every other file --------------------------------------------------------------------------------

  /** The texts a section consists of. */
  lemma SectionText(sec: string, content: string)
    ensures var body := if |content| > 0 && content[|content| - 1] == '\n' then content else content + "\n";
            Section(sec, content) ==
            "##############" + sec + "MOUNT#################\n" + body + "#############" + sec + "MOUNTEND###############\n"
  {
    assert Hashes(14) == "##############" && Hashes(13) == "#############";
    assert Hashes(17) + "\n" == "#################\n" && Hashes(15) + "\n" == "###############\n";
    assert "MOUNT" + Hashes(17) + "\n" == "MOUNT#################\n" && "MOUNTEND" + Hashes(15) + "\n" == "MOUNTEND###############\n";
    assert StartMark(sec) == "##############" + sec + "MOUNT#################\n";
    assert EndMark(sec) == "#############" + sec + "MOUNTEND###############\n";
  }

  /** A file that seems missing becomes just the section, and is left alone by removal. */
  lemma MissingFile(text: string, sec: string, content: string)
    requires !Free(text, NO_FILE)
    ensures Insert(text, sec, content) == Section(sec, content) && Remove(text, sec) == text
  {
    FindNegative(text, NO_FILE);
  }

  /** Without a start mark, or with one in the first two characters, a section is appended on a line of its own, and
      removal changes nothing. */
  lemma NoVisibleStart(text: string, sec: string, content: string)
    requires Free(text, NO_FILE)
    requires Free(text, StartMark(sec)) || Matches(text, StartMark(sec), 0) || Matches(text, StartMark(sec), 1)
    ensures Insert(text, sec, content) ==
            (if text != "" && text[|text| - 1] == '\n' then text else text + "\n") + Section(sec, content)
    ensures Remove(text, sec) == text
  {
    FindNegative(text, NO_FILE);
    FindNegative(text, StartMark(sec));
    if Find(text, StartMark(sec)) >= 0 { FindIsFirst(text, StartMark(sec)); }
  }

  /** With a start mark but no end mark everything from the start mark on is dropped. */
  lemma StartOnly(sec: string, p: string, rest: string, content: string)
    requires '\n' !in sec && Terminated(p) && |p| >= 2 && Free(p, StartMark(sec))
    requires Free(p + StartMark(sec) + rest, EndMark(sec)) && Free(p + StartMark(sec) + rest, NO_FILE)
    ensures Insert(p + StartMark(sec) + rest, sec, content) == p + Section(sec, content)
    ensures Remove(p + StartMark(sec) + rest, sec) == p
  {
    var a, t := StartMark(sec), p + StartMark(sec) + rest;
    StartAfter(sec, p, rest);
    FindNegative(t, EndMark(sec));
    FindNegative(t, NO_FILE);
    assert t[..|p|] == p;
  }

  lemma StartAfter(sec: string, p: string, rest: string)
    requires '\n' !in sec && Terminated(p) && Free(p, StartMark(sec))
    ensures Find(p + StartMark(sec) + rest, StartMark(sec)) == |p|
  {
    var a := StartMark(sec);
    Marks(sec);
    assert p + a + rest == p + (a + rest);
    Finds(a + rest, a, 0);
    FindAfter(p, a + rest, a);
  }

  /** An end mark before the start mark makes the lines between them appear twice, and the start mark stays. */
  lemma {:induction false} EndFirst(sec: string, u: string, v: string, rest: string, content: string)
    requires '\n' !in sec && Terminated(u) && Terminated(v) && Free(u, EndMark(sec)) && Free(u + EndMark(sec) + v, StartMark(sec))
    requires Free(u + EndMark(sec) + v + StartMark(sec) + rest, NO_FILE)
    ensures var t := u + EndMark(sec) + v + StartMark(sec) + rest;
            && Insert(t, sec, content) == u + EndMark(sec) + v + Section(sec, content) + (v + StartMark(sec) + rest)
            && Remove(t, sec) == u + EndMark(sec) + v + (v + StartMark(sec) + rest)
  {
    var p, t := u + EndMark(sec) + v, u + EndMark(sec) + v + StartMark(sec) + rest;
    Marks(sec);
    JoinTerminated(u, EndMark(sec));
    JoinTerminated(u + EndMark(sec), v);
    StartAfter(sec, p, rest);
    EndAfter(sec, u, v + StartMark(sec) + rest);
    Regroup(u, EndMark(sec), v, StartMark(sec), rest);
    FindNegative(t, NO_FILE);
    SpliceAt(t, p, StartMark(sec) + rest, u + EndMark(sec), v + StartMark(sec) + rest);
    Spliced(t, sec, content, |p|, |u|);
  }

  lemma {:induction false} Spliced(t: string, sec: string, content: string, st: nat, end: nat)
    requires Find(t, NO_FILE) == -1 && Find(t, StartMark(sec)) == st > 1 && Find(t, EndMark(sec)) == end
    ensures Insert(t, sec, content) == t[..st] + Section(sec, content) + t[end + |EndMark(sec)|..]
    ensures Remove(t, sec) == t[..st] + t[end + |EndMark(sec)|..]
  {
  }

  lemma Regroup(a: string, b: string, c: string, d: string, e: string)
    ensures a + b + c + d + e == a + b + (c + d + e) == a + b + c + (d + e)
  {
  }

  lemma JoinTerminated(a: string, b: string)
    requires Terminated(a) && Terminated(b)
    ensures Terminated(a + b)
  {
    if b == "" { assert a + b == a; }
  }

  lemma EndAfter(sec: string, u: string, tail: string)
    requires '\n' !in sec && Terminated(u) && Free(u, EndMark(sec))
    ensures Find(u + EndMark(sec) + tail, EndMark(sec)) == |u|
  {
    var b := EndMark(sec);
    Marks(sec);
    assert u + b + tail == u + (b + tail);
    Finds(b + tail, b, 0);
    FindAfter(u, b + tail, b);
  }

  lemma SpliceAt(t: string, a: string, b: string, c: string, d: string)
    requires t == a + b && t == c + d
    ensures t[..|a|] == a && t[|c|..] == d
  {
  }
}
