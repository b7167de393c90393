/** The line walkers of `pgsoft/pggit/git_utils.py`: the cursor parser of
    `git_diff_content`, which turns the unified diff of one file into the
    lines it removed (keyed by old line number) and added (keyed by new line
    number), and the `--name-status` parser of `git_diff_filenames`.
    Both work on the output already split into lines; running git is not
    part of this model. */
module DiffContent {
  import opened Wrappers
  import opened Text

  // ---------------------------------------------------------------------
  // git_diff_content

  /** How the walk treats a line; the tests run in this order. */
  datatype LineKind =
    | HunkHeader   // starts with "@@"
    | FileHeader   // starts with "---" or "+++"
    | Removal      // any other line starting with "-"
    | Addition     // any other line starting with "+"
    | Other        // context, "diff"/"index" headers, empty, "\ No newline"

  function Classify(line: string): LineKind {
    if StartsWith(line, "@@") then HunkHeader
    else if StartsWith(line, "---") || StartsWith(line, "+++") then FileHeader
    else if StartsWith(line, "-") then Removal
    else if StartsWith(line, "+") then Addition
    else Other
  }

  /** The walk's state: the two cursors and the two maps filled so far. */
  datatype Walk = Walk(oldcur: int, newcur: int, added: map<int, string>, removed: map<int, string>)

  /** Both cursors start at line 1 and nothing is recorded. */
  const Start := Walk(1, 1, map[], map[])

  /** The result `git_diff_content` returns when it succeeds. */
  datatype Changes = Changes(added: map<int, string>, removed: map<int, string>)

  predicate IsDash(c: char) { c == '-' }
  predicate IsPlus(c: char) { c == '+' }

  /** The two starts of a hunk header: the text before the first `,` of the
      second and third whitespace tokens, with `-` resp. `+` stripped, read
      by `int()`. The old start is read before the third token is indexed,
      so a bad old start raises `ValueError` even when the third is missing. */
  function HunkStarts(line: string): Result<(int, int)> {
    var tokens := SplitWs(line);
    if |tokens| < 2 then Raise(IndexError)
    else
      match ParseInt(FirstField(Strip(tokens[1], IsDash), ','))
      case Raise(e) => Raise(e)
      case Ok(o) =>
        if |tokens| < 3 then Raise(IndexError)
        else
          match ParseInt(FirstField(Strip(tokens[2], IsPlus), ','))
          case Raise(e) => Raise(e)
          case Ok(n) => Ok((o, n))
  }

  /** One iteration of the loop body. */
  function Step(w: Walk, line: string): Result<Walk> {
    match Classify(line)
    case HunkHeader =>
      (match HunkStarts(line)
       case Raise(e) => Raise(e)
       case Ok(starts) => Ok(w.(oldcur := starts.0, newcur := starts.1)))
    case FileHeader => Ok(w)
    case Removal => Ok(w.(removed := w.removed[w.oldcur := line[1..]], oldcur := w.oldcur + 1))
    case Addition => Ok(w.(added := w.added[w.newcur := line[1..]], newcur := w.newcur + 1))
    case Other => Ok(w.(oldcur := w.oldcur + 1, newcur := w.newcur + 1))
  }

  /** The loop over `lines`, from state `w`; the first exception escapes. */
  function Run(w: Walk, lines: seq<string>): Result<Walk>
    decreases |lines|
  {
    if |lines| == 0 then Ok(w)
    else
      match Step(w, lines[0])
      case Raise(e) => Raise(e)
      case Ok(w') => Run(w', lines[1..])
  }

  /** `git_diff_content` on the lines of the diff text. */
  function ParseDiffContent(lines: seq<string>): Result<Changes> {
    match Run(Start, lines)
    case Raise(e) => Raise(e)
    case Ok(w) => Ok(Changes(w.added, w.removed))
  }

  lemma RunUnfold(w: Walk, lines: seq<string>, i: nat)
    requires i < |lines|
    ensures Run(w, lines[i..]) ==
      match Step(w, lines[i])
      case Raise(e) => Raise(e)
      case Ok(w') => Run(w', lines[i + 1..])
  {
    assert lines[i..][1..] == lines[i + 1..];
  }

  /** The loop of `git_diff_content` as written, line by line. */
  method DiffContentLoop(lines: seq<string>) returns (r: Result<Changes>)
    ensures r == ParseDiffContent(lines)
  {
    var w := Start;
    var i := 0;
    while i < |lines|
      invariant 0 <= i <= |lines|
      invariant Run(Start, lines) == Run(w, lines[i..])
    {
      RunUnfold(w, lines, i);
      var next := Step(w, lines[i]);
      if next.Raise? {
        return Raise(next.error);
      }
      w := next.value;
      i := i + 1;
    }
    assert lines[i..] == [];
    r := Ok(Changes(w.added, w.removed));
  }

  // ---------------------------------------------------------------------
  // Failure

  /** A hunk header whose starts are not both readable. */
  predicate BadHunkHeader(line: string) {
    Classify(line) == HunkHeader && HunkStarts(line).Raise?
  }

  /** The walk fails exactly when some line is a malformed hunk header:
      every other line is accepted, whatever it holds. */
  lemma {:induction false} RaisesOnlyAtHunkHeaders(w: Walk, lines: seq<string>)
    ensures Run(w, lines).Raise? <==> exists i :: 0 <= i < |lines| && BadHunkHeader(lines[i])
    decreases |lines|
  {
    if |lines| > 0 {
      var tail := lines[1..];
      assert forall i :: 0 <= i < |tail| ==> tail[i] == lines[i + 1];
      match Step(w, lines[0])
      case Raise(e) =>
        assert BadHunkHeader(lines[0]);
      case Ok(w') =>
        assert !BadHunkHeader(lines[0]);
        RaisesOnlyAtHunkHeaders(w', tail);
        if exists i :: 0 <= i < |lines| && BadHunkHeader(lines[i]) {
          var i :| 0 <= i < |lines| && BadHunkHeader(lines[i]);
          assert i > 0 && BadHunkHeader(tail[i - 1]);
        }
    }
  }

  // ---------------------------------------------------------------------
  // Where a hunk's lines land

  /** How far a line moves the old cursor (outside hunk headers). */
  function OldMove(line: string): nat {
    match Classify(line)
    case Removal => 1
    case Other => 1
    case _ => 0
  }

  /** How far a line moves the new cursor (outside hunk headers). */
  function NewMove(line: string): nat {
    match Classify(line)
    case Addition => 1
    case Other => 1
    case _ => 0
  }

  /** The number of old-file lines the given diff lines cover. */
  function OldSpan(lines: seq<string>): nat
    decreases |lines|
  {
    if |lines| == 0 then 0 else OldMove(lines[0]) + OldSpan(lines[1..])
  }

  /** The number of new-file lines the given diff lines cover. */
  function NewSpan(lines: seq<string>): nat
    decreases |lines|
  {
    if |lines| == 0 then 0 else NewMove(lines[0]) + NewSpan(lines[1..])
  }

  predicate NoHunkHeader(lines: seq<string>) {
    forall i :: 0 <= i < |lines| ==> Classify(lines[i]) != HunkHeader
  }

  /** The body of a hunk is laid out by counting: its `i`-th line, if a
      removal, is recorded at old line `oldcur + OldSpan(body[..i])`, and if
      an addition, at new line `newcur + NewSpan(body[..i])`; the cursors end
      past the lines covered; keys below the cursors are kept, and no key is
      written outside the covered range. */
  lemma {:induction false} BodyLayout(w: Walk, body: seq<string>)
    requires NoHunkHeader(body)
    ensures Run(w, body).Ok?
    ensures var w' := Run(w, body).value;
      && w'.oldcur == w.oldcur + OldSpan(body)
      && w'.newcur == w.newcur + NewSpan(body)
      && (forall i :: 0 <= i < |body| && Classify(body[i]) == Removal ==>
            w.oldcur + OldSpan(body[..i]) in w'.removed &&
            w'.removed[w.oldcur + OldSpan(body[..i])] == body[i][1..])
      && (forall i :: 0 <= i < |body| && Classify(body[i]) == Addition ==>
            w.newcur + NewSpan(body[..i]) in w'.added &&
            w'.added[w.newcur + NewSpan(body[..i])] == body[i][1..])
      && (forall k :: k in w'.removed && k !in w.removed ==> w.oldcur <= k < w'.oldcur)
      && (forall k :: k in w'.added && k !in w.added ==> w.newcur <= k < w'.newcur)
      && (forall k :: k in w.removed && k < w.oldcur ==> k in w'.removed && w'.removed[k] == w.removed[k])
      && (forall k :: k in w.added && k < w.newcur ==> k in w'.added && w'.added[k] == w.added[k])
      && w.removed.Keys <= w'.removed.Keys && w.added.Keys <= w'.added.Keys
    decreases |body|
  {
    if |body| > 0 {
      var line := body[0];
      var tail := body[1..];
      assert forall i :: 0 <= i < |tail| ==> tail[i] == body[i + 1];
      assert Classify(line) != HunkHeader;
      var s := Step(w, line).value;
      BodyLayout(s, tail);
      var w' := Run(s, tail).value;
      assert Run(w, body) == Run(s, tail);
      assert s.oldcur == w.oldcur + OldMove(line);
      assert s.newcur == w.newcur + NewMove(line);
      PrefixSpans(body);
    }
  }

  /** The span of a prefix of a body is the first line's move plus the
      span of the rest of the prefix. */
  lemma PrefixSpans(body: seq<string>)
    requires |body| > 0
    ensures OldSpan(body[..0]) == 0 && NewSpan(body[..0]) == 0
    ensures forall i :: 0 < i < |body| ==>
      OldSpan(body[..i]) == OldMove(body[0]) + OldSpan(body[1..][..i - 1])
    ensures forall i :: 0 < i < |body| ==>
      NewSpan(body[..i]) == NewMove(body[0]) + NewSpan(body[1..][..i - 1])
  {
    forall i | 0 < i < |body|
      ensures OldSpan(body[..i]) == OldMove(body[0]) + OldSpan(body[1..][..i - 1])
      ensures NewSpan(body[..i]) == NewMove(body[0]) + NewSpan(body[1..][..i - 1])
    {
      assert body[..i][1..] == body[1..][..i - 1];
    }
  }

  /** Where the lines before the first hunk header land: the `i`-th, if a
      removal, at old line `1 + OldSpan(lines[..i])`, and if an addition,
      at new line `1 + NewSpan(lines[..i])`; no other key is recorded. */
  predicate CountedFromOne(lines: seq<string>, c: Changes) {
    && (forall i :: 0 <= i < |lines| && Classify(lines[i]) == Removal ==>
          1 + OldSpan(lines[..i]) in c.removed && c.removed[1 + OldSpan(lines[..i])] == lines[i][1..])
    && (forall i :: 0 <= i < |lines| && Classify(lines[i]) == Addition ==>
          1 + NewSpan(lines[..i]) in c.added && c.added[1 + NewSpan(lines[..i])] == lines[i][1..])
    && (forall k :: k in c.removed ==> 1 <= k < 1 + OldSpan(lines))
    && (forall k :: k in c.added ==> 1 <= k < 1 + NewSpan(lines))
  }

  /** Before any hunk header both cursors count from line 1. */
  lemma BeforeAnyHunk(lines: seq<string>)
    requires NoHunkHeader(lines)
    ensures ParseDiffContent(lines).Ok?
    ensures CountedFromOne(lines, ParseDiffContent(lines).value)
  {
    var w := Start;
    FromLineOne(w, lines);
    assert ParseDiffContent(lines) == Ok(Changes(Run(w, lines).value.added, Run(w, lines).value.removed));
  }

  /** The same from any walk that is where `Start` is. */
  lemma FromLineOne(w: Walk, lines: seq<string>)
    requires NoHunkHeader(lines)
    requires w.oldcur == 1 && w.newcur == 1 && w.removed == map[] && w.added == map[]
    ensures Run(w, lines).Ok?
    ensures CountedFromOne(lines, Changes(Run(w, lines).value.added, Run(w, lines).value.removed))
  {
    RemovedFromLineOne(w, lines);
    AddedFromLineOne(w, lines);
  }

  lemma RemovedFromLineOne(w: Walk, lines: seq<string>)
    requires NoHunkHeader(lines)
    requires w.oldcur == 1 && w.removed == map[]
    ensures Run(w, lines).Ok?
    ensures forall i :: 0 <= i < |lines| && Classify(lines[i]) == Removal ==>
      1 + OldSpan(lines[..i]) in Run(w, lines).value.removed &&
      Run(w, lines).value.removed[1 + OldSpan(lines[..i])] == lines[i][1..]
    ensures forall k :: k in Run(w, lines).value.removed ==> 1 <= k < 1 + OldSpan(lines)
  {
    BodyLayout(w, lines);
  }

  lemma AddedFromLineOne(w: Walk, lines: seq<string>)
    requires NoHunkHeader(lines)
    requires w.newcur == 1 && w.added == map[]
    ensures Run(w, lines).Ok?
    ensures forall i :: 0 <= i < |lines| && Classify(lines[i]) == Addition ==>
      1 + NewSpan(lines[..i]) in Run(w, lines).value.added &&
      Run(w, lines).value.added[1 + NewSpan(lines[..i])] == lines[i][1..]
    ensures forall k :: k in Run(w, lines).value.added ==> 1 <= k < 1 + NewSpan(lines)
  {
    BodyLayout(w, lines);
  }

  /** Within one hunk the recorded old line numbers strictly increase in
      walk order, and so do the new ones: no removal or addition of a hunk
      overwrites another of the same hunk. */
  lemma {:induction false} PositionsIncrease(body: seq<string>, i: nat, j: nat)
    requires i < j <= |body|
    ensures Classify(body[i]) == Removal ==> OldSpan(body[..i]) < OldSpan(body[..j])
    ensures Classify(body[i]) == Addition ==> NewSpan(body[..i]) < NewSpan(body[..j])
  {
    SpanSplit(body[..j], i);
    assert body[..j][..i] == body[..i];
    assert body[..j][i..][0] == body[i];
  }

  lemma {:induction false} SpanSplit(s: seq<string>, i: nat)
    requires i <= |s|
    ensures OldSpan(s) == OldSpan(s[..i]) + OldSpan(s[i..])
    ensures NewSpan(s) == NewSpan(s[..i]) + NewSpan(s[i..])
    decreases i
  {
    if i > 0 {
      SpanSplit(s[1..], i - 1);
      assert s[1..][..i - 1] == s[..i][1..];
      assert s[1..][i - 1..] == s[i..];
    } else {
      assert s[i..] == s;
    }
  }

  /** A hunk header resets both cursors to the starts it declares, whatever
      they were, and records nothing: the rest of the walk goes on from the
      declared starts, where `BodyLayout` places every recorded line. */
  lemma {:induction false} HeaderResets(w: Walk, header: string, rest: seq<string>, o: int, n: int)
    requires Classify(header) == HunkHeader && HunkStarts(header) == Ok((o, n))
    ensures Run(w, [header] + rest) == Run(Walk(o, n, w.added, w.removed), rest)
  {
    HeaderStep(w, header, o, n);
    assert ([header] + rest)[1..] == rest;
  }

  lemma HeaderStep(w: Walk, header: string, o: int, n: int)
    requires Classify(header) == HunkHeader && HunkStarts(header) == Ok((o, n))
    ensures Step(w, header) == Ok(w.(oldcur := o, newcur := n))
  {
  }

  // ---------------------------------------------------------------------
  // Hunk headers as git writes them

  /** The `,length` part of a range; git omits it when the length is 1. */
  function LengthText(len: Option<nat>): string {
    match len
    case None => ""
    case Some(l) => "," + Decimal(l)
  }

  /** One side of a hunk range: `-start[,len]` or `+start[,len]`. */
  function RangeText(sign: char, start: nat, len: Option<nat>): string {
    [sign] + Decimal(start) + LengthText(len)
  }

  /** `@@ -o[,ol] +n[,nl] @@<rest>` as the unified diff format writes it;
      `rest` is the optional section heading. */
  function HunkHeaderText(o: nat, ol: Option<nat>, n: nat, nl: Option<nat>, rest: string): string {
    Spaced("@@", Spaced(RangeText('-', o, ol), Spaced(RangeText('+', n, nl), "@@" + rest)))
  }

  /** Two texts with one space between them. */
  function Spaced(a: string, b: string): string {
    a + " " + b
  }

  /** Reading a well-formed hunk header gives back the two starts written
      into it, with or without lengths and whatever heading follows. */
  lemma HunkHeaderRoundTrip(o: nat, ol: Option<nat>, n: nat, nl: Option<nat>, rest: string)
    ensures Classify(HunkHeaderText(o, ol, n, nl, rest)) == HunkHeader
    ensures HunkStarts(HunkHeaderText(o, ol, n, nl, rest)) == Ok((o, n))
  {
    var t1 := RangeText('-', o, ol);
    var t2 := RangeText('+', n, nl);
    var line := HunkHeaderText(o, ol, n, nl, rest);
    StartsWithConcat("@@", " ");
    StartsWithAppend("@@" + " ", "@@", Spaced(t1, Spaced(t2, "@@" + rest)));
    LengthTextShape(ol);
    LengthTextShape(nl);
    TokenWord("-", Decimal(o), LengthText(ol));
    TokenWord("+", Decimal(n), LengthText(nl));
    HeaderTokens(t1, t2, "@@" + rest);
    StartReads('-', IsDash, LengthText(ol), o);
    StartReads('+', IsPlus, LengthText(nl), n);
    HunkStartsOf(line, t1, t2, o, n);
  }

  lemma HunkStartsOf(line: string, t1: string, t2: string, o: int, n: int)
    requires |SplitWs(line)| >= 3 && SplitWs(line)[1] == t1 && SplitWs(line)[2] == t2
    requires ParseInt(FirstField(Strip(t1, IsDash), ',')) == Ok(o)
    requires ParseInt(FirstField(Strip(t2, IsPlus), ',')) == Ok(n)
    ensures HunkStarts(line) == Ok((o, n))
  {
  }

  lemma LengthTextShape(len: Option<nat>)
    ensures LengthShape(LengthText(len))
  {
    if len.Some? {
      var d := Decimal(len.value);
      assert LengthText(len) == [','] + d;
    }
  }

  lemma HeaderTokens(t1: string, t2: string, tail: string)
    requires SplitWs(t1) == [t1] && SplitWs(t2) == [t2]
    ensures var words := SplitWs(Spaced("@@", Spaced(t1, Spaced(t2, tail))));
      |words| >= 3 && words[1] == t1 && words[2] == t2
  {
    SplitWsWord("@@");
    SpacedWords(t2, tail);
    SpacedWords(t1, Spaced(t2, tail));
    SpacedWords("@@", Spaced(t1, Spaced(t2, tail)));
  }

  /** A single word, a space, then more text: that word leads the words. */
  lemma SpacedWords(a: string, b: string)
    requires SplitWs(a) == [a]
    ensures SplitWs(Spaced(a, b)) == [a] + SplitWs(b)
  {
    SplitWsAtSpace(a, ' ', b);
  }

  lemma TokenWord(sign: string, digits: string, len: string)
    requires |sign| == 1 && !IsSpace(sign[0])
    requires forall i :: 0 <= i < |digits| ==> IsDigit(digits[i])
    requires LengthShape(len)
    ensures SplitWs(sign + digits + len) == [sign + digits + len]
  {
    var w := sign + digits + len;
    forall i | 0 <= i < |w| ensures !IsSpace(w[i]) {
      if i < |sign| { assert w[i] == sign[i]; }
      else if i < |sign| + |digits| { assert w[i] == digits[i - |sign|]; assert IsDigit(w[i]); }
      else { assert w[i] == len[i - |sign| - |digits|]; }
    }
    SplitWsWord(w);
  }

  lemma StripSign(sign: char, body: string, drop: char -> bool)
    requires drop(sign) && |body| > 0 && !drop(body[0]) && !drop(body[|body| - 1])
    ensures Strip([sign] + body, drop) == body
  {
    assert ([sign] + body)[1..] == body;
    assert TrimLeft([sign] + body, drop) == TrimLeft(body, drop);
  }

  predicate KeepsDigits(drop: char -> bool) {
    forall c :: IsDigit(c) ==> !drop(c)
  }

  /** The shape of the `,length` suffix of a range. */
  predicate LengthShape(len: string) {
    len == "" || (|len| >= 2 && len[0] == ',' && forall i :: 0 < i < |len| ==> IsDigit(len[i]))
  }

  lemma StripSignedRange(sign: char, drop: char -> bool, len: string, v: nat)
    requires drop(sign) && KeepsDigits(drop) && LengthShape(len)
    ensures Strip([sign] + Decimal(v) + len, drop) == Decimal(v) + len
  {
    var digits := Decimal(v);
    var body := digits + len;
    var first := body[0];
    var last := body[|body| - 1];
    assert first == digits[0];
    if len == "" {
      assert last == digits[|digits| - 1];
    } else {
      assert last == len[|len| - 1];
    }
    assert IsDigit(first) && IsDigit(last);
    StripSign(sign, body, drop);
    assert [sign] + digits + len == [sign] + body;
  }

  lemma RangeStart(len: string, v: nat)
    requires LengthShape(len)
    ensures FirstField(Decimal(v) + len, ',') == Decimal(v)
  {
    var digits := Decimal(v);
    forall i | 0 <= i < |digits| ensures digits[i] != ',' {
      assert IsDigit(digits[i]);
    }
    FirstFieldStops(digits, len, ',');
  }

  lemma StartReads(sign: char, drop: char -> bool, len: string, v: nat)
    requires drop(sign) && KeepsDigits(drop) && LengthShape(len)
    ensures ParseInt(FirstField(Strip([sign] + Decimal(v) + len, drop), ',')) == Ok(v)
  {
    StripSignedRange(sign, drop, len, v);
    RangeStart(len, v);
    ParseDecimal(v);
  }

  lemma {:induction false} FirstFieldStops(a: string, b: string, sep: char)
    requires sep !in a && (b == "" || b[0] == sep)
    ensures FirstField(a + b, sep) == a
    decreases |a|
  {
    if |a| > 0 {
      assert (a + b)[1..] == a[1..] + b;
      FirstFieldStops(a[1..], b, sep);
    } else {
      assert a + b == b;
    }
  }

  // ---------------------------------------------------------------------
  // Worked examples

  /** One line of the walk, then the rest. */
  lemma RunCons(w: Walk, line: string, rest: seq<string>, w': Walk)
    requires Step(w, line) == Ok(w')
    ensures Run(w, [line] + rest) == Run(w', rest)
  {
    assert ([line] + rest)[1..] == rest;
  }

  lemma StartsWithCons(c: char, x: string, p: string)
    ensures StartsWith([c] + x, [c] + p) <==> StartsWith(x, p)
  {
    assert ([c] + x)[1..] == x && ([c] + p)[1..] == p;
  }

  /** A line `-x` whose text `x` does not itself begin with `--` is a
      removal: `x` is recorded at the old cursor, which moves on. */
  lemma RemovalStep(w: Walk, x: string)
    requires !StartsWith(x, "--")
    ensures Step(w, "-" + x) == Ok(w.(removed := w.removed[w.oldcur := x], oldcur := w.oldcur + 1))
  {
    var line := "-" + x;
    StartsWithCons('-', x, "--");
    assert line == ['-'] + x && "---" == ['-'] + "--";
    assert !StartsWith(line, "---");
    assert line[0] == '-';
    assert !StartsWith(line, "@@") && !StartsWith(line, "+++") && StartsWith(line, "-");
    assert Classify(line) == Removal;
    assert line[1..] == x;
  }

  /** A line `+y` whose text `y` does not itself begin with `++` is an
      addition: `y` is recorded at the new cursor, which moves on. */
  lemma AdditionStep(w: Walk, y: string)
    requires !StartsWith(y, "++")
    ensures Step(w, "+" + y) == Ok(w.(added := w.added[w.newcur := y], newcur := w.newcur + 1))
  {
    var line := "+" + y;
    StartsWithCons('+', y, "++");
    assert line == ['+'] + y && "+++" == ['+'] + "++";
    assert !StartsWith(line, "+++");
    assert line[0] == '+';
    assert !StartsWith(line, "@@") && !StartsWith(line, "---") && !StartsWith(line, "-");
    assert StartsWith(line, "+");
    assert Classify(line) == Addition;
    assert line[1..] == y;
  }

  /** A hunk of one context line, one removal and one addition, after any
      hunk header declaring starts `o` and `n`: the removal is recorded at
      old line `o + 1` and the addition at new line `n + 1`, and nothing
      else is recorded. */
  lemma {:induction false} OneReplacement(h: string, o: int, n: int, ctx: string, x: string, y: string)
    requires Classify(h) == HunkHeader && HunkStarts(h) == Ok((o, n))
    requires Classify(ctx) == Other
    requires !StartsWith(x, "--") && !StartsWith(y, "++")
    ensures ParseDiffContent([h] + [ctx, "-" + x, "+" + y])
         == Ok(Changes(map[n + 1 := y], map[o + 1 := x]))
  {
    var r, a := "-" + x, "+" + y;
    var w1 := Walk(o, n, map[], map[]);
    var w2 := Walk(o + 1, n + 1, map[], map[]);
    var w3 := w2.(removed := w2.removed[w2.oldcur := x], oldcur := w2.oldcur + 1);
    var w4 := w3.(added := w3.added[w3.newcur := y], newcur := w3.newcur + 1);
    RemovalStep(w2, x);
    AdditionStep(w3, y);
    RunCons(w3, a, [], w4);
    RunCons(w2, r, [a], w3);
    RunCons(w1, ctx, [r, a], w2);
    HeaderResets(Start, h, [ctx, r, a], o, n);
  }

  /** The same with the header written by git: with `o = n = 5` and lengths
      3 and 4 this is the hunk `@@ -5,3 +5,4 @@`; with `o = n = 50` it is the
      replacement of line 51 made by the repository's own test. */
  lemma ContextRemovalAddition(o: nat, ol: Option<nat>, n: nat, nl: Option<nat>,
                               ctx: string, x: string, y: string)
    requires Classify(ctx) == Other
    requires !StartsWith(x, "--") && !StartsWith(y, "++")
    ensures ParseDiffContent([HunkHeaderText(o, ol, n, nl, "")] + [ctx, "-" + x, "+" + y])
         == Ok(Changes(map[n + 1 := y], map[o + 1 := x]))
  {
    HunkHeaderRoundTrip(o, ol, n, nl, "");
    OneReplacement(HunkHeaderText(o, ol, n, nl, ""), o, n, ctx, x, y);
  }

  /** Any line starting `---` or `+++` is skipped and moves no cursor, even
      inside a hunk. */
  lemma FileHeaderLinesSkipped(w: Walk, line: string)
    requires StartsWith(line, "---") || StartsWith(line, "+++")
    ensures Step(w, line) == Ok(w)
  {
  }

  /** So a removed line whose own text begins with `--` is lost: it is
      neither recorded nor counted. */
  lemma DoubleDashRemovalDropped(w: Walk, x: string)
    requires StartsWith(x, "--")
    ensures Step(w, "-" + x) == Ok(w)
  {
    StartsWithCons('-', x, "--");
    assert "-" + x == ['-'] + x && "---" == ['-'] + "--";
  }

  /** A hunk header with no second token raises `IndexError`. */
  lemma HeaderWithoutRanges(w: Walk, line: string)
    requires StartsWith(line, "@@") && |SplitWs(line)| < 2
    ensures Step(w, line) == Raise(IndexError)
  {
  }

  // ---------------------------------------------------------------------
  // git_diff_filenames

  predicate IsQuoteOrSpace(c: char) { c == '"' || c == ' ' }

  /** One `--name-status` line: its first tab field, trimmed, is the status
      and its second, with quotes and spaces stripped, is the file name.
      A line without a tab has no second field: `IndexError`. */
  function StatusEntry(line: string): Result<(string, string)> {
    var fields := SplitOn(line, '\t');
    if |fields| < 2 then Raise(IndexError)
    else Ok((Strip(fields[1], IsQuoteOrSpace), Strip(fields[0], IsSpace)))
  }

  /** The loop of `git_diff_filenames` from the dictionary built so far. */
  function NameStatusFrom(acc: map<string, string>, lines: seq<string>): Result<map<string, string>>
    decreases |lines|
  {
    if |lines| == 0 then Ok(acc)
    else
      match StatusEntry(lines[0])
      case Raise(e) => Raise(e)
      case Ok(entry) => NameStatusFrom(acc[entry.0 := entry.1], lines[1..])
  }

  function NameStatus(lines: seq<string>): Result<map<string, string>> {
    NameStatusFrom(map[], lines)
  }

  lemma {:induction false} SplitOnHasTab(s: string, sep: char)
    ensures |SplitOn(s, sep)| >= 2 <==> sep in s
  {
    if |s| > 0 {
      SplitOnHasTab(s[1..], sep);
      assert sep in s <==> s[0] == sep || sep in s[1..];
    }
  }

  /** A line the loop can read: it has a second tab field. */
  predicate Tabbed(line: string) {
    |SplitOn(line, '\t')| >= 2
  }

  predicate AllTabbed(lines: seq<string>) {
    forall i :: 0 <= i < |lines| ==> Tabbed(lines[i])
  }

  /** The file name a readable line gives; nothing for any other line. */
  function NameOf(line: string): string {
    if Tabbed(line) then StatusEntry(line).value.0 else ""
  }

  function StatusOf(line: string): string
    requires Tabbed(line)
  {
    StatusEntry(line).value.1
  }

  /** `git_diff_filenames` raises `IndexError` exactly when some line has no
      tab, and raises nothing else. */
  lemma {:induction false} NameStatusRaises(acc: map<string, string>, lines: seq<string>)
    ensures NameStatusFrom(acc, lines).Raise? <==> exists i :: 0 <= i < |lines| && '\t' !in lines[i]
    ensures NameStatusFrom(acc, lines).Raise? ==> NameStatusFrom(acc, lines).error == IndexError
    decreases |lines|
  {
    if |lines| > 0 {
      var tail := lines[1..];
      SplitOnHasTab(lines[0], '\t');
      if '\t' in lines[0] {
        var acc' := acc[StatusEntry(lines[0]).value.0 := StatusEntry(lines[0]).value.1];
        NameStatusRaises(acc', tail);
        assert forall i :: 0 <= i < |tail| ==> tail[i] == lines[i + 1];
        if exists i :: 0 <= i < |lines| && '\t' !in lines[i] {
          var i :| 0 <= i < |lines| && '\t' !in lines[i];
          assert i > 0 && '\t' !in tail[i - 1];
        }
      }
    }
  }

  /** One iteration of the loop on a readable line. */
  lemma NameStatusStep(acc: map<string, string>, lines: seq<string>)
    requires |lines| > 0 && Tabbed(lines[0])
    ensures NameStatusFrom(acc, lines)
         == NameStatusFrom(acc[NameOf(lines[0]) := StatusOf(lines[0])], lines[1..])
  {
  }

  lemma TailTabbed(lines: seq<string>)
    requires |lines| > 0 && AllTabbed(lines)
    ensures AllTabbed(lines[1..])
  {
    var tail := lines[1..];
    forall k | 0 <= k < |tail| ensures Tabbed(tail[k]) {
      assert tail[k] == lines[k + 1];
    }
  }

  /** The names of the lines, in a set. */
  function Names(lines: seq<string>): set<string> {
    Image(NameOf, lines)
  }

  function Image(f: string -> string, lines: seq<string>): set<string> {
    set i | 0 <= i < |lines| :: f(lines[i])
  }

  lemma ImageCons(f: string -> string, lines: seq<string>)
    requires |lines| > 0
    ensures Image(f, lines) == {f(lines[0])} + Image(f, lines[1..])
  {
    var tail := lines[1..];
    forall x | x in Image(f, lines) ensures x == f(lines[0]) || x in Image(f, tail) {
      var i :| 0 <= i < |lines| && f(lines[i]) == x;
      if i > 0 {
        assert lines[i] == tail[i - 1];
      }
    }
    forall x | x in Image(f, tail) ensures x in Image(f, lines) {
      var i :| 0 <= i < |tail| && f(tail[i]) == x;
      assert tail[i] == lines[i + 1];
    }
    assert f(lines[0]) in Image(f, lines);
  }

  /** When every line has a tab, the keys are the names already present
      plus the names of the lines, and nothing else. */
  lemma {:induction false} NameStatusKeys(acc: map<string, string>, lines: seq<string>)
    requires AllTabbed(lines)
    ensures NameStatusFrom(acc, lines).Ok?
    ensures NameStatusFrom(acc, lines).value.Keys == acc.Keys + Names(lines)
    decreases |lines|
  {
    if |lines| > 0 {
      var tail := lines[1..];
      var acc' := acc[NameOf(lines[0]) := StatusOf(lines[0])];
      TailTabbed(lines);
      NameStatusStep(acc, lines);
      NameStatusKeys(acc', tail);
      ImageCons(NameOf, lines);
    }
  }

  /** The line that names a file for the last time decides its status:
      later lines for other files do not touch it. */
  lemma {:induction false} NameStatusLastWins(acc: map<string, string>, lines: seq<string>, i: nat)
    requires AllTabbed(lines) && i < |lines|
    requires forall j :: i < j < |lines| ==> NameOf(lines[j]) != NameOf(lines[i])
    ensures NameStatusFrom(acc, lines).Ok?
    ensures NameOf(lines[i]) in NameStatusFrom(acc, lines).value
    ensures NameStatusFrom(acc, lines).value[NameOf(lines[i])] == StatusOf(lines[i])
    decreases |lines|
  {
    var tail := lines[1..];
    var acc' := acc[NameOf(lines[0]) := StatusOf(lines[0])];
    TailTabbed(lines);
    NameStatusStep(acc, lines);
    if i > 0 {
      forall j | i - 1 < j < |tail| ensures NameOf(tail[j]) != NameOf(tail[i - 1]) {
        assert tail[j] == lines[j + 1] && tail[i - 1] == lines[i];
      }
      NameStatusLastWins(acc', tail, i - 1);
      assert tail[i - 1] == lines[i];
    } else {
      forall j | 0 <= j < |tail| ensures NameOf(tail[j]) != NameOf(lines[0]) {
        assert tail[j] == lines[j + 1];
      }
      NameStatusUntouched(acc', tail, NameOf(lines[0]));
    }
  }

  /** A name that no line mentions keeps the value it had. */
  lemma {:induction false} NameStatusUntouched(acc: map<string, string>, lines: seq<string>, name: string)
    requires AllTabbed(lines) && name in acc
    requires forall j :: 0 <= j < |lines| ==> NameOf(lines[j]) != name
    ensures NameStatusFrom(acc, lines).Ok?
    ensures name in NameStatusFrom(acc, lines).value
    ensures NameStatusFrom(acc, lines).value[name] == acc[name]
    decreases |lines|
  {
    if |lines| > 0 {
      var tail := lines[1..];
      TailTabbed(lines);
      NameStatusStep(acc, lines);
      forall j | 0 <= j < |tail| ensures NameOf(tail[j]) != name {
        assert tail[j] == lines[j + 1];
      }
      NameStatusUntouched(acc[NameOf(lines[0]) := StatusOf(lines[0])], tail, name);
    }
  }
}
