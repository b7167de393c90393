/** The detailed mode of `git_diff` in `src/pggit/git_utils.py`: the
    output of `git diff <before> <after>`, already split into lines, is
    grouped by file into markers (`rename`, `newfile`, `delfile`) and the
    removed and added lines in diff order. Running git is not part of this
    model; its output is the input. */
module GitDiff {
  import opened Wrappers
  import opened Text

  // ---------------------------------------------------------------------
  // The header pattern `.*a/(.*) .*b/(.*)"?`

  /** Positions at which the pattern `.*A(.*)S.*B(.*)` can match the text
      `s` of one line: `A` at `p`, `S` at `q`, `B` at `r`. */
  predicate SplitWith(s: string, pa: string, sp: string, pb: string, p: int, q: int, r: int) {
    && OccursAt(s, pa, p) && p + |pa| <= q
    && OccursAt(s, sp, q) && q + |sp| <= r
    && OccursAt(s, pb, r)
  }

  /** The splits of the header pattern: `a/` at `p`, the space at `q`,
      `b/` at `r`. */
  predicate Split(s: string, p: int, q: int, r: int) {
    SplitWith(s, "a/", " ", "b/", p, q, r)
  }

  /** Lexicographic order on position triples. */
  predicate NotAfter(p: int, q: int, r: int, p': int, q': int, r': int) {
    p < p' || (p == p' && (q < q' || (q == q' && r <= r')))
  }

  /** The positions a backtracking matcher settles on: every `.*` is greedy,
      so the first `.*` gives back characters only until some `B` works
      (at `r`), and the rest of the pattern is then matched before it. */
  function MatchWith(s: string, pa: string, sp: string, pb: string): (m: Option<(nat, nat, nat)>)
    ensures m.Some? ==> && m.value.0 + |pa| <= m.value.1
                        && m.value.1 + |sp| <= m.value.2
                        && m.value.2 + |pb| <= |s|
  {
    match LastAt(s, pb, |s| - |pb|)
    case None => None
    case Some(r) => MatchBefore(s, pa, sp, r)
  }

  /** With `B` at `r`, the group gives back characters only until some `S`
      works, and the `.*` before it only until some `A` does. */
  function MatchBefore(s: string, pa: string, sp: string, r: nat): (m: Option<(nat, nat, nat)>)
    ensures m.Some? ==> && m.value.0 + |pa| <= m.value.1
                        && m.value.1 + |sp| <= m.value.2 == r
  {
    match LastAt(s, sp, r - |sp|)
    case None => None
    case Some(q) =>
      match LastAt(s, pa, q - |pa|)
      case None => None
      case Some(p) => Some((p, q, r))
  }

  /** The header pattern `.*a/(.*) .*b/(.*)"?` up to its optional quote. */
  function MatchAt(s: string): (m: Option<(nat, nat, nat)>)
    ensures m.Some? ==> m.value.0 + 2 <= m.value.1 < m.value.2 && m.value.2 + 2 <= |s|
  {
    MatchWith(s, "a/", " ", "b/")
  }

  /** The first success of the backtracking is a split, the
      lexicographically greatest one, and the match fails only when there
      is no split. */
  lemma MatchWithGreatest(s: string, pa: string, sp: string, pb: string)
    ensures var m := MatchWith(s, pa, sp, pb);
      && (m.Some? ==> SplitWith(s, pa, sp, pb, m.value.0, m.value.1, m.value.2))
      && (m.Some? ==> forall p, q, r :: SplitWith(s, pa, sp, pb, p, q, r) ==>
            NotAfter(p, q, r, m.value.0, m.value.1, m.value.2))
      && (m.None? <==> forall p, q, r :: !SplitWith(s, pa, sp, pb, p, q, r))
  {
    LastAtLast(s, pb, |s| - |pb|);
    match LastAt(s, pb, |s| - |pb|)
    case None =>
    case Some(r) =>
      BeforeGreatest(s, pa, sp, pb, r);
  }

  /** The same once `B` is fixed at `r`, among the splits that put `B` no
      later than `r`. */
  lemma BeforeGreatest(s: string, pa: string, sp: string, pb: string, r: nat)
    requires OccursAt(s, pb, r)
    ensures var m := MatchBefore(s, pa, sp, r);
      && (m.Some? ==> SplitWith(s, pa, sp, pb, m.value.0, m.value.1, m.value.2))
      && (m.Some? ==> forall p, q, r' :: SplitWith(s, pa, sp, pb, p, q, r') && r' <= r ==>
            NotAfter(p, q, r', m.value.0, m.value.1, m.value.2))
      && (m.None? <==> forall p, q, r' :: r' <= r ==> !SplitWith(s, pa, sp, pb, p, q, r'))
  {
    LastAtLast(s, sp, r - |sp|);
    match LastAt(s, sp, r - |sp|)
    case None =>
    case Some(q) =>
      LastAtLast(s, pa, q - |pa|);
      match LastAt(s, pa, q - |pa|)
      case None =>
      case Some(p) =>
        assert SplitWith(s, pa, sp, pb, p, q, r);
  }

  /** The same for the header pattern. */
  lemma MatchAtGreatest(s: string)
    ensures var m := MatchAt(s);
      && (m.Some? ==> Split(s, m.value.0, m.value.1, m.value.2))
      && (m.Some? ==> forall p, q, r :: Split(s, p, q, r) ==>
            NotAfter(p, q, r, m.value.0, m.value.1, m.value.2))
      && (m.None? <==> forall p, q, r :: !Split(s, p, q, r))
  {
    MatchWithGreatest(s, "a/", " ", "b/");
    forall p, q, r ensures Split(s, p, q, r) <==> SplitWith(s, "a/", " ", "b/", p, q, r) {
    }
  }

  /** `re.match('.*a/(.*) .*b/(.*)"?', line).groups()`, or `None` when the
      line does not match. `.` stops at a line feed; the second group takes
      the rest of that first line and the optional quote matches nothing. */
  function HeaderNames(line: string): Option<(string, string)> {
    var s := FirstLine(line);
    match MatchAt(s)
    case None => None
    case Some(m) => Some((s[m.0 + 2..m.1], s[m.2 + 2..]))
  }

  // ---------------------------------------------------------------------
  // The header of one file as git writes it

  /** `pat` occurs nowhere in `s`. */
  ghost predicate Free(s: string, pat: string) {
    forall i :: !OccursAt(s, pat, i)
  }

  /** The same, decided by scanning: usable on literal text. */
  predicate Absent(s: string, pat: string)
    decreases |s|
  {
    |s| == 0 || (!StartsWith(s, pat) && Absent(s[1..], pat))
  }

  lemma {:induction false} AbsentFree(s: string, pat: string)
    requires |pat| > 0 && Absent(s, pat)
    ensures Free(s, pat)
    decreases |s|
  {
    if |s| > 0 {
      AbsentFree(s[1..], pat);
      StartsWithSlice(s, pat);
      forall i ensures !OccursAt(s, pat, i) {
        OccursShift(s, pat, i);
      }
    }
  }

  lemma OccursShift(s: string, pat: string, i: int)
    ensures i > 0 && |s| > 0 ==> (OccursAt(s, pat, i) <==> OccursAt(s[1..], pat, i - 1))
  {
    if i > 0 && |s| > 0 && i + |pat| <= |s| {
      assert s[1..][i - 1..i - 1 + |pat|] == s[i..i + |pat|];
    }
  }

  /** A window of `a + b` that lies inside `b`. */
  lemma WindowRight(a: string, b: string, i: int, n: nat)
    requires |a| <= i && i + n <= |a| + |b|
    ensures (a + b)[i..i + n] == b[i - |a|..i - |a| + n]
  {
  }

  const Front: string := "diff --git a/"
  const Middle: string := " b/"

  /** The header git prints for a file `x` in the old and `y` in the new
      revision, when neither name needs quoting. */
  function DiffHeader(x: string, y: string): string {
    Front + x + Middle + y
  }

  /** The four parts of a concatenation, as slices. */
  lemma Parts(a: string, b: string, c: string, d: string)
    ensures var s := a + b + c + d;
      && |s| == |a| + |b| + |c| + |d|
      && s[..|a|] == a && s[|a|..|a| + |b|] == b
      && s[|a| + |b|..|a| + |b| + |c|] == c && s[|a| + |b| + |c|..] == d
  {
  }

  /** A window of a part is a window of the whole. */
  lemma Inner(s: string, lo: int, t: string, i: int, n: int)
    requires 0 <= lo && lo + |t| <= |s| && s[lo..lo + |t|] == t
    requires 0 <= i && 0 <= n && i + n <= |t|
    ensures s[lo + i..lo + i + n] == t[i..i + n]
  {
    var u, v := s[lo + i..lo + i + n], t[i..i + n];
    forall k | 0 <= k < n ensures u[k] == v[k] {
      assert s[lo + i + k] == s[lo..lo + |t|][i + k];
    }
  }

  lemma HeaderParts(x: string, y: string)
    ensures var s := DiffHeader(x, y);
      && |s| == 16 + |x| + |y|
      && s[..13] == Front && s[13..13 + |x|] == x
      && s[13 + |x|..16 + |x|] == Middle && s[16 + |x|..] == y
  {
    Parts(Front, x, Middle, y);
  }

  /** The characters of the header `s` of names `x` and `y` that the
      pattern looks at. */
  predicate Shaped(s: string, x: string, y: string) {
    && |s| == 16 + |x| + |y|
    && s[11] == 'a' && s[12] == '/'
    && s[13 + |x|] == ' ' && s[14 + |x|] == 'b' && s[15 + |x|] == '/'
    && s[13..13 + |x|] == x && s[16 + |x|..] == y
  }

  lemma HeaderChars(x: string, y: string)
    ensures Shaped(DiffHeader(x, y), x, y)
  {
    var s := DiffHeader(x, y);
    HeaderParts(x, y);
    assert s[11] == s[..13][11] && s[12] == s[..13][12];
    assert s[13 + |x|] == s[13 + |x|..16 + |x|][0];
    assert s[14 + |x|] == s[13 + |x|..16 + |x|][1];
    assert s[15 + |x|] == s[13 + |x|..16 + |x|][2];
  }

  lemma HeaderStartsDiff(x: string, y: string)
    ensures StartsWith(DiffHeader(x, y), "diff")
  {
    assert StartsWith(Front, "diff");
    StartsWithAppend(Front, "diff", x + Middle + y);
    Parts(Front, x, Middle, y);
    assert DiffHeader(x, y) == Front + (x + Middle + y);
  }

  /** Two characters in a row. */
  lemma PairAt(s: string, pat: string, i: int)
    requires |pat| == 2 && 0 <= i && i + 1 < |s|
    ensures OccursAt(s, pat, i) <==> s[i] == pat[0] && s[i + 1] == pat[1]
  {
    if s[i] == pat[0] && s[i + 1] == pat[1] {
      assert s[i..i + 2] == pat;
    }
  }

  lemma NoLineFeed(x: string, y: string)
    requires '\n' !in x && '\n' !in y
    ensures FirstLine(DiffHeader(x, y)) == DiffHeader(x, y)
  {
    var s := DiffHeader(x, y);
    HeaderParts(x, y);
    assert '\n' !in Front && '\n' !in Middle;
    forall i | 0 <= i < |s| ensures s[i] != '\n' {
      if i < 13 { assert s[i] == s[..13][i]; }
      else if i < 13 + |x| { assert s[i] == s[13..13 + |x|][i - 13]; }
      else if i < 16 + |x| { assert s[i] == s[13 + |x|..16 + |x|][i - 13 - |x|]; }
      else { assert s[i] == s[16 + |x|..][i - 16 - |x|]; }
    }
    var f := FirstLine(s);
    assert |f| == |s|;
  }

  /** The last `b/` is the one git wrote, provided the new name holds no
      `b/`. */
  lemma LastSlashB(s: string, x: string, y: string)
    requires Shaped(s, x, y) && Free(y, "b/")
    ensures LastAt(s, "b/", |s| - 2) == Some(14 + |x|)
  {
    var r := 14 + |x|;
    PairAt(s, "b/", r);
    if |y| > 0 {
      PairAt(s, "b/", r + 1);
    }
    NoneInWindow(s, 16 + |x|, y, "b/");
    LastAtIs(s, "b/", |s| - 2, r);
  }

  /** A window holding a text free of `pat` holds no `pat` either. */
  lemma NoneInWindow(s: string, lo: nat, t: string, pat: string)
    requires lo + |t| <= |s| && s[lo..] == t && Free(t, pat)
    ensures forall i :: lo <= i <= lo + |t| - |pat| ==> !OccursAt(s, pat, i)
  {
    assert s[lo..lo + |t|] == t;
    forall i | lo <= i <= lo + |t| - |pat| ensures !OccursAt(s, pat, i) {
      Inner(s, lo, t, i - lo, |pat|);
      assert !OccursAt(t, pat, i - lo);
    }
  }

  /** The last occurrence up to `q` of the character at `q` is at `q`. */
  lemma CharOccurs(s: string, q: nat)
    requires q < |s|
    ensures LastAt(s, [s[q]], q) == Some(q)
  {
    assert s[q..q + 1] == [s[q]];
  }

  /** The group ends at the space just before that `b/`. */
  lemma SeparatorSpace(s: string, x: string, y: string)
    requires Shaped(s, x, y)
    ensures LastAt(s, " ", 13 + |x|) == Some(13 + |x|)
  {
    CharOccurs(s, 13 + |x|);
  }

  /** The `a/` git writes before the old name is the last one, provided
      the name holds none. */
  lemma FrontSlashA(s: string, x: string, y: string)
    requires Shaped(s, x, y) && Free(x, "a/")
    ensures LastAt(s, "a/", 11 + |x|) == Some(11)
  {
    PairAt(s, "a/", 11);
    PairAt(s, "a/", 12);
    NoneInNameWindow(s, x, y);
    LastAtIs(s, "a/", 11 + |x|, 11);
  }

  lemma NoneInNameWindow(s: string, x: string, y: string)
    requires Shaped(s, x, y) && Free(x, "a/")
    ensures forall i :: 13 <= i <= 11 + |x| ==> !OccursAt(s, "a/", i)
  {
    forall i | 13 <= i <= 11 + |x| ensures !OccursAt(s, "a/", i) {
      Inner(s, 13, x, i - 13, 2);
      assert !OccursAt(x, "a/", i - 13);
    }
  }

  /** Otherwise the last `a/` before the separator is the name's own last
      one. */
  lemma LastSlashA(s: string, x: string, y: string, k: nat)
    requires Shaped(s, x, y)
    requires OccursAt(x, "a/", k) && forall j :: k < j <= |x| - 2 ==> !OccursAt(x, "a/", j)
    ensures LastAt(s, "a/", 11 + |x|) == Some(13 + k)
  {
    LastInWindow(s, 13, x, "a/", k);
  }

  /** On such a header the pattern settles on git's own separator and on
      the last `a/` before it. */
  lemma ShapedNames(s: string, x: string, y: string, p: nat)
    requires Shaped(s, x, y) && Free(y, "b/") && FirstLine(s) == s
    requires LastAt(s, "a/", 11 + |x|) == Some(p)
    ensures HeaderNames(s) == Some((s[p + 2..13 + |x|], y))
  {
    ShapedMatch(s, x, y, p);
    HeaderFromMatch(s, p, 13 + |x|, 14 + |x|);
  }

  lemma ShapedMatch(s: string, x: string, y: string, p: nat)
    requires Shaped(s, x, y) && Free(y, "b/")
    requires LastAt(s, "a/", 11 + |x|) == Some(p)
    ensures MatchAt(s) == Some((p, 13 + |x|, 14 + |x|))
  {
    LastSlashB(s, x, y);
    SeparatorSpace(s, x, y);
    MatchFromParts(s, "a/", " ", "b/", p, 13 + |x|, 14 + |x|);
  }

  /** For a file kept under its name, the pattern reads that name twice,
      provided the name holds neither `a/` nor `b/`. */
  lemma HeaderOfKeptName(x: string)
    requires Free(x, "a/") && Free(x, "b/") && '\n' !in x
    ensures HeaderNames(DiffHeader(x, x)) == Some((x, x))
  {
    var s := DiffHeader(x, x);
    NoLineFeed(x, x);
    HeaderChars(x, x);
    FrontSlashA(s, x, x);
    ShapedNames(s, x, x, 11);
  }

  /** As written, a name that holds `a/` past its first character, such as
      `data/x`, is cut after its last `a/`: the two names read differ. */
  lemma HeaderOfNestedName(d: string, f: string)
    requires Free(f, "a/") && Free(d + "a/" + f, "b/") && '\n' !in d + "a/" + f
    ensures HeaderNames(DiffHeader(d + "a/" + f, d + "a/" + f)) == Some((f, d + "a/" + f))
  {
    var x := d + "a/" + f;
    LastInName(d, f, x);
    HeaderAfterLastA(x, |d|);
    assert x[|d| + 2..] == f;
  }

  /** The old name read is what follows the last `a/` inside the name. */
  lemma HeaderAfterLastA(x: string, k: nat)
    requires OccursAt(x, "a/", k) && forall j :: k < j <= |x| - 2 ==> !OccursAt(x, "a/", j)
    requires Free(x, "b/") && '\n' !in x
    ensures HeaderNames(DiffHeader(x, x)) == Some((x[k + 2..], x))
  {
    var s := DiffHeader(x, x);
    NoLineFeed(x, x);
    HeaderChars(x, x);
    LastSlashA(s, x, x, k);
    ShapedNames(s, x, x, 13 + k);
    NameTail(s, x, x, k + 2);
  }

  lemma NameTail(s: string, x: string, y: string, j: nat)
    requires Shaped(s, x, y) && j <= |x|
    ensures s[13 + j..13 + |x|] == x[j..]
  {
    Inner(s, 13, x, j, |x| - j);
    assert x[j..|x|] == x[j..];
  }

  /** The pattern settles on the last `B`, the last `S` before it and the
      last `A` before that. */
  lemma MatchFromParts(s: string, pa: string, sp: string, pb: string, p: nat, q: nat, r: nat)
    requires LastAt(s, pb, |s| - |pb|) == Some(r)
    requires LastAt(s, sp, r - |sp|) == Some(q)
    requires LastAt(s, pa, q - |pa|) == Some(p)
    ensures MatchWith(s, pa, sp, pb) == Some((p, q, r))
  {
    BeforeFromParts(s, pa, sp, p, q, r);
  }

  lemma BeforeFromParts(s: string, pa: string, sp: string, p: nat, q: nat, r: nat)
    requires LastAt(s, sp, r - |sp|) == Some(q)
    requires LastAt(s, pa, q - |pa|) == Some(p)
    ensures MatchBefore(s, pa, sp, r) == Some((p, q, r))
  {
  }

  /** The names read off a one-line header once the pattern has settled. */
  lemma HeaderFromMatch(line: string, p: nat, q: nat, r: nat)
    requires FirstLine(line) == line && MatchAt(line) == Some((p, q, r))
    ensures HeaderNames(line) == Some((line[p + 2..q], line[r + 2..]))
  {
  }

  /** When `t` sits in `s` at `lo`, the last `pat` of `t` is the last one
      of `s` that ends inside the window. */
  lemma LastInWindow(s: string, lo: nat, t: string, pat: string, k: nat)
    requires lo + |t| <= |s| && s[lo..lo + |t|] == t
    requires OccursAt(t, pat, k) && forall j :: k < j <= |t| - |pat| ==> !OccursAt(t, pat, j)
    ensures LastAt(s, pat, lo + |t| - |pat|) == Some(lo + k)
  {
    Inner(s, lo, t, k, |pat|);
    NoneLaterInWindow(s, lo, t, pat, k);
    LastAtIs(s, pat, lo + |t| - |pat|, lo + k);
  }

  lemma NoneLaterInWindow(s: string, lo: nat, t: string, pat: string, k: nat)
    requires lo + |t| <= |s| && s[lo..lo + |t|] == t
    requires forall j :: k < j <= |t| - |pat| ==> !OccursAt(t, pat, j)
    ensures forall i :: lo + k < i <= lo + |t| - |pat| ==> !OccursAt(s, pat, i)
  {
    forall i | lo + k < i <= lo + |t| - |pat| ensures !OccursAt(s, pat, i) {
      Inner(s, lo, t, i - lo, |pat|);
      assert !OccursAt(t, pat, i - lo);
    }
  }

  lemma LastInName(d: string, f: string, x: string)
    requires x == d + "a/" + f && Free(f, "a/")
    ensures OccursAt(x, "a/", |d|)
    ensures forall j :: |d| < j <= |x| - 2 ==> !OccursAt(x, "a/", j)
  {
    assert x[|d|..|d| + 2] == "a/";
    forall j | |d| < j <= |x| - 2 ensures !OccursAt(x, "a/", j) {
      if j == |d| + 1 {
        assert x[j] == '/';
      } else {
        var front := d + "a/";
        assert x == front + f;
        WindowRight(front, f, j, 2);
        assert !OccursAt(f, "a/", j - |front|);
      }
    }
  }

  // ---------------------------------------------------------------------
  // The grouper

  /** The dictionary built for one file. `rename`, `newfile` and `delfile`
      are keys that may be absent; `delline` and `addline` are created on
      their first append, so an absent key and an empty list coincide. */
  datatype Entry = Entry(
    rename: Option<string>,
    newfile: Option<string>,
    delfile: Option<string>,
    delline: seq<string>,
    addline: seq<string>)

  const Empty := Entry(None, None, None, [], [])

  /** The loop's state: the output so far and the names `a` and `b` read
      from the last `diff` header, both `""` before the first. */
  datatype State = State(outp: map<string, Entry>, a: string, b: string)

  const Start := State(map[], "", "")

  /** How a `diff` header line is split into the old and new name; the
      source uses `HeaderNames`. */
  type NameReader = string -> Option<(string, string)>

  predicate IsQuote(c: char) { c == '"' }

  /** The second whitespace token of a `---` or `+++` line, if it has one. */
  function SecondToken(line: string): Option<string> {
    var t := SplitWs(line);
    if |t| < 2 then None else Some(t[1])
  }

  /** A `---`/`+++` line that names `/dev/null`: it replaces an entry by a
      marker and skips the rest of the loop body. */
  predicate NullHeader(line: string, prefix: string) {
    StartsWith(line, prefix) && SecondToken(line) == Some(DevNull)
  }

  /** The tail of the loop body: make sure the old name has an entry, then
      append the line without its first character to `delline` if it
      starts with `-`, or to `addline` if it starts with `+`. */
  function Record(st: State, line: string): State {
    var e := if st.a in st.outp then st.outp[st.a] else Empty;
    var e' :=
      if StartsWith(line, "-") then e.(delline := e.delline + [line[1..]])
      else if StartsWith(line, "+") then e.(addline := e.addline + [line[1..]])
      else e;
    st.(outp := st.outp[st.a := e'])
  }

  /** The `---` and `+++` tests of the loop body, then `Record`. */
  function Headers(st: State, line: string): Result<State> {
    if StartsWith(line, "---") then
      match SecondToken(line)
      case None => Raise(IndexError)
      case Some(t) =>
        if t == DevNull then Ok(st.(outp := st.outp[st.b := Empty.(newfile := Some(st.b))]))
        else Ok(Record(st, line))
    else if StartsWith(line, "+++") then
      match SecondToken(line)
      case None => Raise(IndexError)
      case Some(t) =>
        if t == DevNull then Ok(st.(outp := st.outp[st.a := Empty.(delfile := Some(st.a))]))
        else Ok(Record(st, line))
    else Ok(Record(st, line))
  }

  /** One iteration of the loop. The `while` loops that follow each marker
      only rebind the loop variable of a `for ... in range`, so the next
      iteration still starts at the next line: they are no-ops here. */
  function Step(names: NameReader, st: State, line: string): Result<State> {
    if StartsWith(line, "diff") then
      match names(line)
      case None => Raise(AttributeError)
      case Some(g) =>
        var a := Strip(g.0, IsQuote);
        var b := Strip(g.1, IsQuote);
        if a != b then Ok(State(st.outp[a := Empty.(rename := Some(b))], a, b))
        else Headers(State(st.outp, a, b), line)
    else Headers(st, line)
  }

  function Run(names: NameReader, st: State, lines: seq<string>): Result<State>
    decreases |lines|
  {
    if |lines| == 0 then Ok(st)
    else
      match Step(names, st, lines[0])
      case Raise(e) => Raise(e)
      case Ok(st') => Run(names, st', lines[1..])
  }

  /** The grouping loop from the empty dictionary. */
  function Group(names: NameReader, lines: seq<string>): Result<map<string, Entry>> {
    match Run(names, Start, lines)
    case Raise(e) => Raise(e)
    case Ok(st) => Ok(st.outp)
  }

  // ---------------------------------------------------------------------
  // Failure

  /** A line the loop body cannot get through: a `diff` line the header
      pattern does not match (`.groups()` on `None`), or a `---`/`+++` line
      with no second token. */
  predicate Bad(names: NameReader, line: string) {
    || (StartsWith(line, "diff") && names(line).None?)
    || ((StartsWith(line, "---") || StartsWith(line, "+++")) && SecondToken(line).None?)
  }

  lemma PrefixesDiffer(line: string)
    ensures StartsWith(line, "diff") ==> !StartsWith(line, "---") && !StartsWith(line, "+++")
    ensures StartsWith(line, "diff") ==> !StartsWith(line, "-") && !StartsWith(line, "+")
  {
    StartsWithSlice(line, "diff");
    StartsWithSlice(line, "---");
    StartsWithSlice(line, "+++");
    StartsWithSlice(line, "-");
    StartsWithSlice(line, "+");
    if StartsWith(line, "diff") {
      assert line[0] == "diff"[0];
    }
  }

  lemma StepRaises(names: NameReader, st: State, line: string)
    ensures Step(names, st, line).Raise? <==> Bad(names, line)
  {
    PrefixesDiffer(line);
  }

  /** The grouping fails exactly when some line is bad, whatever the
      state: no line that gets through depends on what came before. */
  lemma {:induction false} RunRaises(names: NameReader, st: State, lines: seq<string>)
    ensures Run(names, st, lines).Raise? <==> exists i :: 0 <= i < |lines| && Bad(names, lines[i])
    decreases |lines|
  {
    if |lines| > 0 {
      var tail := lines[1..];
      StepRaises(names, st, lines[0]);
      assert forall i :: 0 <= i < |tail| ==> tail[i] == lines[i + 1];
      match Step(names, st, lines[0])
      case Raise(_) =>
      case Ok(st') =>
        RunRaises(names, st', tail);
        if exists i :: 0 <= i < |lines| && Bad(names, lines[i]) {
          var i :| 0 <= i < |lines| && Bad(names, lines[i]);
          assert i > 0 && Bad(names, tail[i - 1]);
        }
    }
  }

  // ---------------------------------------------------------------------
  // The body of a file section

  /** A line that is handled by `Record`: no `diff` header, and a `---`
      or `+++` line only if it names something other than `/dev/null`. */
  predicate BodyLine(line: string) {
    && !StartsWith(line, "diff")
    && ((StartsWith(line, "---") || StartsWith(line, "+++")) ==>
          SecondToken(line).Some? && SecondToken(line).value != DevNull)
  }

  predicate AllBody(lines: seq<string>) {
    forall i :: 0 <= i < |lines| ==> BodyLine(lines[i])
  }

  /** What one line contributes to `delline`. */
  function RemovedOf(line: string): seq<string> {
    if StartsWith(line, "-") then [line[1..]] else []
  }

  /** What one line contributes to `addline`. */
  function AddedOf(line: string): seq<string> {
    if StartsWith(line, "+") then [line[1..]] else []
  }

  /** The lines starting with `-`, each without that character, in order. */
  function Removed(lines: seq<string>): seq<string>
    decreases |lines|
  {
    if |lines| == 0 then [] else RemovedOf(lines[0]) + Removed(lines[1..])
  }

  /** The lines starting with `+`, each without that character, in order. */
  function Added(lines: seq<string>): seq<string>
    decreases |lines|
  {
    if |lines| == 0 then [] else AddedOf(lines[0]) + Added(lines[1..])
  }

  lemma Cons(line: string, rest: seq<string>)
    ensures Removed([line] + rest) == RemovedOf(line) + Removed(rest)
    ensures Added([line] + rest) == AddedOf(line) + Added(rest)
  {
    assert ([line] + rest)[0] == line;
    assert ([line] + rest)[1..] == rest;
  }

  /** The entry of the current old name, or the empty one. */
  function Current(st: State): Entry {
    if st.a in st.outp then st.outp[st.a] else Empty
  }

  function Appended(e: Entry, lines: seq<string>): Entry {
    e.(delline := e.delline + Removed(lines), addline := e.addline + Added(lines))
  }

  lemma PlusNotMinus(line: string)
    ensures StartsWith(line, "-") ==> !StartsWith(line, "+")
  {
    StartsWithSlice(line, "-");
    StartsWithSlice(line, "+");
  }

  /** Body lines never touch the names or any other file's entry; they
      give the current file an entry and append to its `delline` and
      `addline`, in diff order, the lines that start with `-` and `+` —
      including `---` and `+++` headers that do not name `/dev/null`. */
  lemma {:induction false} BodyAppends(names: NameReader, st: State, body: seq<string>)
    requires AllBody(body)
    ensures Run(names, st, body) ==
      Ok(if |body| == 0 then st else st.(outp := st.outp[st.a := Appended(Current(st), body)]))
    decreases |body|
  {
    if |body| > 0 {
      var line, tail := body[0], body[1..];
      var e1 := Appended(Current(st), [line]);
      var st1 := st.(outp := st.outp[st.a := e1]);
      assert Run(names, st, body) == Run(names, st1, tail) by {
        BodyStep(names, st, line);
      }
      assert AllBody(tail) by {
        assert forall i :: 0 <= i < |tail| ==> tail[i] == body[i + 1];
      }
      BodyAppends(names, st1, tail);
      if |tail| == 0 {
        assert body == [line];
        assert Run(names, st1, tail) == Ok(st1);
        assert Appended(Current(st), body) == e1;
      } else {
        assert Current(st1) == e1;
        assert body == [line] + tail;
        AppendedSplit(Current(st), line, tail);
        var e := Appended(Current(st), body);
        assert Appended(e1, tail) == e;
        assert st1.outp[st.a := e] == st.outp[st.a := e];
      }
    }
  }

  /** One body line appends itself to the current entry. */
  lemma BodyStep(names: NameReader, st: State, line: string)
    requires BodyLine(line)
    ensures Step(names, st, line) == Ok(st.(outp := st.outp[st.a := Appended(Current(st), [line])]))
  {
    PlusNotMinus(line);
    OneLine(line);
    assert Step(names, st, line) == Ok(Record(st, line));
    var e := Current(st);
    if StartsWith(line, "-") {
      assert e.addline + AddedOf(line) == e.addline;
    } else if StartsWith(line, "+") {
      assert e.delline + RemovedOf(line) == e.delline;
    } else {
      assert e.addline + AddedOf(line) == e.addline;
      assert e.delline + RemovedOf(line) == e.delline;
    }
  }

  lemma AppendedSplit(e: Entry, line: string, tail: seq<string>)
    ensures Appended(Appended(e, [line]), tail) == Appended(e, [line] + tail)
  {
    Cons(line, tail);
    OneLine(line);
    assert e.delline + RemovedOf(line) + Removed(tail) == e.delline + (RemovedOf(line) + Removed(tail));
    assert e.addline + AddedOf(line) + Added(tail) == e.addline + (AddedOf(line) + Added(tail));
  }

  lemma OneLine(line: string)
    ensures Removed([line]) == RemovedOf(line)
    ensures Added([line]) == AddedOf(line)
  {
    Cons(line, []);
  }

  function Concat(r: Result<State>, names: NameReader, lines: seq<string>): Result<State> {
    match r
    case Raise(e) => Raise(e)
    case Ok(st) => Run(names, st, lines)
  }

  /** The loop over `xs + ys` is the loop over `xs`, then over `ys`. */
  lemma {:induction false} RunConcat(names: NameReader, st: State, xs: seq<string>, ys: seq<string>)
    ensures Run(names, st, xs + ys) == Concat(Run(names, st, xs), names, ys)
    decreases |xs|
  {
    if |xs| == 0 {
      assert xs + ys == ys;
    } else {
      assert (xs + ys)[0] == xs[0];
      assert (xs + ys)[1..] == xs[1..] + ys;
      match Step(names, st, xs[0])
      case Raise(_) =>
      case Ok(st') => RunConcat(names, st', xs[1..], ys);
    }
  }

  /** A file section: a `diff` header the reader splits into `x` and `y`,
      then body lines. Its entry is keyed by the old name `x`. When the
      names differ the section starts from exactly `{rename: y}`, dropping
      whatever was there; the rest of the section is still read into the
      same entry, since the skip loops skip nothing. When the names agree
      the entry already there, if any, is kept and extended. */
  lemma {:induction false} Section(names: NameReader, st: State, header: string, body: seq<string>,
                                   x: string, y: string)
    requires StartsWith(header, "diff") && names(header).Some?
    requires x == Strip(names(header).value.0, IsQuote) && y == Strip(names(header).value.1, IsQuote)
    requires AllBody(body)
    ensures var base := if x != y then Empty.(rename := Some(y))
                        else if x in st.outp then st.outp[x] else Empty;
      Run(names, st, [header] + body) == Ok(State(st.outp[x := Appended(base, body)], x, y))
  {
    var base := if x != y then Empty.(rename := Some(y))
                else if x in st.outp then st.outp[x] else Empty;
    var st1 := State(st.outp[x := base], x, y);
    assert Run(names, st, [header]) == Ok(st1) by {
      HeaderStep(names, st, header, x, y);
      assert [header][1..] == [];
    }
    BodyFrom(names, st.outp, x, y, base, body);
    assert Run(names, st, [header] + body) == Run(names, st1, body) by {
      RunConcat(names, st, [header], body);
    }
  }

  /** Body lines after an entry `base` was put under the old name. */
  lemma BodyFrom(names: NameReader, outp: map<string, Entry>, x: string, y: string,
                 base: Entry, body: seq<string>)
    requires AllBody(body)
    ensures Run(names, State(outp[x := base], x, y), body)
         == Ok(State(outp[x := Appended(base, body)], x, y))
  {
    var st1 := State(outp[x := base], x, y);
    BodyAppends(names, st1, body);
    if |body| == 0 {
      assert Appended(base, []) == base;
    } else {
      assert Current(st1) == base;
      assert st1.outp[x := Appended(base, body)] == outp[x := Appended(base, body)];
    }
  }

  lemma HeaderStep(names: NameReader, st: State, header: string, x: string, y: string)
    requires StartsWith(header, "diff") && names(header).Some?
    requires x == Strip(names(header).value.0, IsQuote) && y == Strip(names(header).value.1, IsQuote)
    ensures var base := if x != y then Empty.(rename := Some(y))
                        else if x in st.outp then st.outp[x] else Empty;
      Step(names, st, header) == Ok(State(st.outp[x := base], x, y))
  {
    PrefixesDiffer(header);
    if x == y {
      assert Headers(State(st.outp, x, y), header) == Ok(Record(State(st.outp, x, y), header));
    }
  }

  // ---------------------------------------------------------------------
  // The markers

  /** A `--- /dev/null` line replaces the entry of the current new name by
      exactly `{newfile: b}`; a `+++ /dev/null` line replaces that of the
      current old name by exactly `{delfile: a}`. Neither moves a name. */
  lemma NullMarkers(names: NameReader, st: State, line: string)
    requires !StartsWith(line, "diff")
    ensures NullHeader(line, "---") ==>
      Step(names, st, line) == Ok(st.(outp := st.outp[st.b := Empty.(newfile := Some(st.b))]))
    ensures NullHeader(line, "+++") ==>
      Step(names, st, line) == Ok(st.(outp := st.outp[st.a := Empty.(delfile := Some(st.a))]))
  {
  }

  const DevNull: string := "/dev/null"

  /** A `---` or `+++` line: the mark, one space, a path. */
  function HeaderLine(mark: string, path: string): string {
    mark + " " + path
  }

  /** A line of two words, the first not starting with `d`: it starts
      with that word and its second token is the second word. */
  lemma SideLine(mark: string, path: string)
    requires |mark| > 0 && Printable(mark) && mark[0] != 'd'
    requires |path| > 0 && Printable(path)
    ensures StartsWith(HeaderLine(mark, path), mark)
    ensures SecondToken(HeaderLine(mark, path)) == Some(path)
    ensures !StartsWith(HeaderLine(mark, path), "diff")
  {
    var line := HeaderLine(mark, path);
    StartsWithConcat(mark, " ");
    StartsWithAppend(mark + " ", mark, path);
    TwoWords(mark, path);
    if StartsWith(line, "diff") {
      FirstChar(line, "diff");
    }
  }

  /** Dropping the first character of a header line shortens its mark. */
  lemma DropMark(mark: string, path: string)
    requires |mark| > 0
    ensures HeaderLine(mark, path)[1..] == HeaderLine(mark[1..], path)
  {
  }

  /** `--- /dev/null` and `+++ /dev/null` are the marker lines. */
  lemma NullLine(mark: string)
    requires |mark| > 0 && Printable(mark) && mark[0] != 'd'
    ensures StartsWith(HeaderLine(mark, DevNull), mark)
    ensures SecondToken(HeaderLine(mark, DevNull)) == Some(DevNull)
    ensures !StartsWith(HeaderLine(mark, DevNull), "diff")
  {
    assert Printable(DevNull);
    SideLine(mark, DevNull);
  }

  // ---------------------------------------------------------------------
  // A new file, as git prints it

  /** `line` starts with `p` exactly when its first characters are `p`;
      in particular the first character decides a one-character prefix. */
  lemma FirstChar(line: string, p: string)
    requires |p| > 0 && StartsWith(line, p)
    ensures |line| > 0 && line[0] == p[0]
  {
    StartsWithSlice(line, p);
  }

  /** A name git prints without quoting in a `diff --git` header: visible
      ASCII, neither `a/` nor `b/` inside, no quote at either end. */
  ghost predicate PlainName(x: string) {
    && |x| > 0 && Printable(x) && Free(x, "a/") && Free(x, "b/")
    && x[0] != '"' && x[|x| - 1] != '"'
  }

  lemma PlainHeader(x: string)
    requires PlainName(x)
    ensures StartsWith(DiffHeader(x, x), "diff")
    ensures HeaderNames(DiffHeader(x, x)) == Some((x, x))
    ensures Strip(x, IsQuote) == x
  {
    PrintableNoLineFeed(x);
    HeaderOfKeptName(x);
    StripNothing(x, IsQuote);
    HeaderStartsDiff(x, x);
  }

  /** A line whose first character is none of `d`, `-`, `+` records
      nothing. */
  lemma QuietLine(line: string)
    requires |line| > 0 && line[0] != 'd' && line[0] != '-' && line[0] != '+'
    ensures BodyLine(line) && RemovedOf(line) == [] && AddedOf(line) == []
  {
    if StartsWith(line, "-") { FirstChar(line, "-"); }
    if StartsWith(line, "+") { FirstChar(line, "+"); }
    if StartsWith(line, "diff") { FirstChar(line, "diff"); }
    if StartsWith(line, "---") { FirstChar(line, "---"); }
    if StartsWith(line, "+++") { FirstChar(line, "+++"); }
  }

  /** An added line `+y`, provided `y` does not itself start with `++`. */
  lemma AddLine(y: string)
    requires !StartsWith(y, "++")
    ensures BodyLine("+" + y) && RemovedOf("+" + y) == [] && AddedOf("+" + y) == [y]
  {
    var a := "+" + y;
    StartsWithConcat("+", y);
    assert a[1..] == y;
    if StartsWith(a, "-") { FirstChar(a, "-"); }
    if StartsWith(a, "diff") { FirstChar(a, "diff"); }
    if StartsWith(a, "---") { FirstChar(a, "---"); }
    assert !StartsWith(a, "+++") by {
      StartsWithSlice(a, "+++");
      StartsWithSlice(y, "++");
    }
  }

  /** `+++ b/<x>` is a body line: its second token is `b/<x>`. */
  lemma NewSideHeader(x: string)
    requires |x| > 0 && Printable(x)
    ensures var line := HeaderLine("+++", "b/" + x);
      BodyLine(line) && RemovedOf(line) == [] && AddedOf(line) == [HeaderLine("++", "b/" + x)]
  {
    var w := "b/" + x;
    var line := HeaderLine("+++", w);
    assert SecondToken(line) == Some(w) && !StartsWith(line, "diff") && StartsWith(line, "+++") by {
      assert Printable("+++") && Printable("b/");
      PrintableConcat("b/", x);
      SideLine("+++", w);
    }
    assert w != DevNull by {
      assert w[0] != DevNull[0];
    }
    NewSideBody(line, w);
    DropMark("+++", w);
  }

  /** A `+++` line naming something other than `/dev/null` is an added
      line. */
  lemma NewSideBody(line: string, w: string)
    requires StartsWith(line, "+++") && !StartsWith(line, "diff")
    requires SecondToken(line) == Some(w) && w != DevNull
    ensures BodyLine(line) && RemovedOf(line) == [] && AddedOf(line) == [line[1..]]
  {
    FirstChar(line, "+++");
    assert StartsWith(line, "+") by {
      assert line[0] == '+';
    }
    if StartsWith(line, "-") { FirstChar(line, "-"); }
  }

  /** The lines git prints for a new file `x` holding the one line `y`:
      the header lines, then the hunk. */
  function NewFileLines(x: string, y: string): seq<string> {
    [DiffHeader(x, x), NewMode, HeaderLine("---", DevNull)]
      + [HeaderLine("+++", "b/" + x), "@@ -0,0 +1 @@", "+" + y]
  }

  /** The `--- /dev/null` line of a new file marks `newfile`, but the
      section is not skipped: the `+++ b/x` header and the added line
      still land in `addline` of the same entry. */
  lemma NewFileSection(x: string, y: string)
    requires PlainName(x) && !StartsWith(y, "++")
    ensures Group(HeaderNames, NewFileLines(x, y))
         == Ok(map[x := Entry(None, Some(x), None, [], [HeaderLine("++", "b/" + x), y])])
  {
    var h := DiffHeader(x, x);
    var body := [HeaderLine("+++", "b/" + x), "@@ -0,0 +1 @@", "+" + y];
    PlainHeader(x);
    NewFileMarks();
    NewFileBody(x, y, body);
    NewFileRun(HeaderNames, h, NewMode, HeaderLine("---", DevNull), body, x,
               [HeaderLine("++", "b/" + x), y]);
    assert NewFileLines(x, y) == [h, NewMode, HeaderLine("---", DevNull)] + body;
  }

  const NewMode := "new file mode 100644"

  /** The two header lines of a new file that come before its body. */
  lemma NewFileMarks()
    ensures BodyLine(NewMode) && RemovedOf(NewMode) == [] && AddedOf(NewMode) == []
    ensures NullHeader(HeaderLine("---", DevNull), "---")
    ensures !StartsWith(HeaderLine("---", DevNull), "diff")
  {
    QuietLine(NewMode);
    assert Printable("---");
    NullLine("---");
  }

  lemma NewFileBody(x: string, y: string, body: seq<string>)
    requires PlainName(x) && !StartsWith(y, "++")
    requires body == [HeaderLine("+++", "b/" + x), "@@ -0,0 +1 @@", "+" + y]
    ensures AllBody(body) && Removed(body) == [] && Added(body) == [HeaderLine("++", "b/" + x), y]
  {
    var h, m, a := body[0], body[1], body[2];
    NewSideHeader(x);
    QuietLine(m);
    AddLine(y);
    assert body == [h] + ([m] + [a]);
    Cons(h, [m] + [a]);
    Cons(m, [a]);
    OneLine(a);
  }

  /** A kept-name header, a line that records nothing, `--- /dev/null`,
      then body lines: one entry, marked `newfile`, holding the body. */
  lemma NewFileRun(names: NameReader, h: string, mode: string, nl: string, body: seq<string>,
                   x: string, added: seq<string>)
    requires StartsWith(h, "diff") && names(h) == Some((x, x)) && Strip(x, IsQuote) == x
    requires BodyLine(mode) && RemovedOf(mode) == [] && AddedOf(mode) == []
    requires NullHeader(nl, "---") && !StartsWith(nl, "diff")
    requires AllBody(body) && Removed(body) == [] && Added(body) == added
    ensures Group(names, [h, mode, nl] + body)
         == Ok(map[x := Entry(None, Some(x), None, [], added)])
  {
    var st1 := State(map[x := Empty], x, x);
    assert Run(names, Start, [h, mode]) == Ok(st1) by {
      SectionStart(names, h, mode, x);
    }
    var marked := Empty.(newfile := Some(x));
    var st2 := State(map[x := marked], x, x);
    assert Run(names, st1, [nl]) == Ok(st2) by {
      NullMarkers(names, st1, nl);
      assert st1.outp[x := marked] == st2.outp;
      assert [nl][1..] == [];
    }
    assert Run(names, st2, body) == Ok(State(map[x := Appended(marked, body)], x, x)) by {
      BodyFrom(names, map[], x, x, marked, body);
      assert map[][x := marked] == st2.outp;
    }
    assert Appended(marked, body) == Entry(None, Some(x), None, [], added);
    RunConcat(names, Start, [h, mode], [nl]);
    RunConcat(names, Start, [h, mode] + [nl], body);
    assert [h, mode] + [nl] == [h, mode, nl];
  }

  /** The header of a kept name and one line that records nothing. */
  lemma SectionStart(names: NameReader, h: string, mode: string, x: string)
    requires StartsWith(h, "diff") && names(h) == Some((x, x)) && Strip(x, IsQuote) == x
    requires BodyLine(mode) && RemovedOf(mode) == [] && AddedOf(mode) == []
    ensures Run(names, Start, [h, mode]) == Ok(State(map[x := Empty], x, x))
  {
    OneLine(mode);
    Section(names, Start, h, [mode], x, x);
    assert Appended(Empty, [mode]) == Empty;
    assert [h] + [mode] == [h, mode];
  }

  // ---------------------------------------------------------------------
  // Names holding `a/`: the pattern as written, and a corrected reader

  /** The smallest case: a file `data/x` kept under its name. The pattern
      cuts the old name after the `a/` inside `data/`, so the single
      header line already records a rename of `x` to `data/x`. */
  lemma NestedNameRenamed()
    ensures Group(HeaderNames, [DiffHeader("data/x", "data/x")])
         == Ok(map["x" := Empty.(rename := Some("data/x"))])
  {
    assert Absent("x", "a/") && Absent("data/x", "b/");
    AbsentFree("x", "a/");
    AbsentFree("data/x", "b/");
    assert "dat" + "a/" + "x" == "data/x";
    NestedNameGroup("dat", "x");
  }

  /** In general: a file `d` + `a/` + `f`, with no `a/` in `f`, kept under
      its name, is grouped as a rename of `f`. */
  lemma NestedNameGroup(d: string, f: string)
    requires Free(f, "a/") && Free(d + "a/" + f, "b/") && '\n' !in d + "a/" + f
    requires |f| > 0 && !IsQuote(f[0]) && !IsQuote(f[|f| - 1])
    requires |d| == 0 || !IsQuote(d[0])
    ensures Group(HeaderNames, [DiffHeader(d + "a/" + f, d + "a/" + f)])
         == Ok(map[f := Empty.(rename := Some(d + "a/" + f))])
  {
    var x := d + "a/" + f;
    HeaderOfNestedName(d, f);
    assert x[0] == (if |d| == 0 then 'a' else d[0]);
    assert x[|x| - 1] == f[|f| - 1];
    KeptHeaderFacts(f, x);
    assert f != x by {
      assert |x| > |f|;
    }
    RenameOnly(HeaderNames, DiffHeader(x, x), f, x);
  }

  /** The facts the grouper needs about a header of `y` read as `x`. */
  lemma KeptHeaderFacts(x: string, y: string)
    requires |x| > 0 && !IsQuote(x[0]) && !IsQuote(x[|x| - 1])
    requires |y| > 0 && !IsQuote(y[0]) && !IsQuote(y[|y| - 1])
    ensures StartsWith(DiffHeader(y, y), "diff")
    ensures Strip(x, IsQuote) == x && Strip(y, IsQuote) == y
  {
    HeaderStartsDiff(y, y);
    StripNothing(x, IsQuote);
    StripNothing(y, IsQuote);
  }

  /** A lone header whose two names differ gives just the rename entry. */
  lemma RenameOnly(names: NameReader, h: string, x: string, y: string)
    requires StartsWith(h, "diff") && names(h) == Some((x, y)) && x != y
    requires Strip(x, IsQuote) == x && Strip(y, IsQuote) == y
    ensures Group(names, [h]) == Ok(map[x := Empty.(rename := Some(y))])
  {
    var st1 := State(map[x := Empty.(rename := Some(y))], x, y);
    assert Step(names, Start, h) == Ok(st1) by {
      HeaderStep(names, Start, h, x, y);
    }
    assert Run(names, Start, [h]) == Ok(st1) by {
      assert [h][0] == h && [h][1..] == [];
    }
  }

  /** A header reader that splits an unquoted `diff --git a/X b/Y` line
      where git put the separator: in the middle when the two names are
      the same, otherwise at the last ` b/`. Any other line is read by the
      pattern as before. */
  function FixedHeaderNames(line: string): Option<(string, string)> {
    var s := FirstLine(line);
    if |s| < 13 || s[..13] != Front then HeaderNames(line)
    else
      match SplitRest(s[13..])
      case None => HeaderNames(line)
      case Some(g) => Some(g)
  }

  /** The two names in the text after `diff --git a/`: its halves when it
      is a name, ` b/` and the same name, otherwise the parts around its
      last ` b/`. */
  function SplitRest(rest: string): Option<(string, string)> {
    var n := |rest|;
    if n >= 3 && n % 2 == 1 && Halves(rest, (n - 3) / 2) then
      Some((rest[..(n - 3) / 2], rest[(n + 3) / 2..]))
    else
      match LastAt(rest, Middle, n - |Middle|)
      case None => None
      case Some(k) => Some((rest[..k], rest[k + 3..]))
  }

  /** `rest` is a name of length `m`, ` b/`, and the same name again. */
  predicate Halves(rest: string, m: nat) {
    |rest| == 2 * m + 3 && rest[m..m + 3] == Middle && rest[..m] == rest[m + 3..]
  }

  lemma Three(a: string, b: string, c: string)
    ensures (a + b + c)[..|a|] == a && (a + b + c)[|a|..|a| + |b|] == b
    ensures (a + b + c)[|a| + |b|..] == c
  {
  }

  lemma HeaderRest(x: string, y: string)
    ensures |DiffHeader(x, y)| >= 13 && DiffHeader(x, y)[..13] == Front
    ensures DiffHeader(x, y)[13..] == x + Middle + y
  {
    Parts(Front, x, Middle, y);
    assert DiffHeader(x, y) == Front + (x + Middle + y);
  }

  /** The corrected reader gives back any name git writes unquoted in
      both places, `a/` and `b/` inside it included. */
  lemma FixedKeptName(x: string)
    requires '\n' !in x
    ensures FixedHeaderNames(DiffHeader(x, x)) == Some((x, x))
  {
    NoLineFeed(x, x);
    HeaderRest(x, x);
    var rest := x + Middle + x;
    Three(x, Middle, x);
    assert Halves(rest, |x|);
  }

  /** It also gives back both names of a rename, as long as neither
      name holds ` b/`. */
  lemma FixedRename(x: string, y: string)
    requires '\n' !in x && '\n' !in y && x != y
    requires Free(x, Middle) && Free(y, Middle)
    ensures FixedHeaderNames(DiffHeader(x, y)) == Some((x, y))
  {
    NoLineFeed(x, y);
    HeaderRest(x, y);
    JoinedConcat(x, y);
    FixedRenameLine(DiffHeader(x, y), x + Middle + y, x, y);
  }

  lemma FixedRenameLine(line: string, rest: string, x: string, y: string)
    requires FirstLine(line) == line && |line| >= 13 && line[..13] == Front
    requires line[13..] == rest && Joined(rest, x, y)
    requires x != y && Free(x, Middle) && Free(y, Middle)
    ensures FixedHeaderNames(line) == Some((x, y))
  {
    OnlyMiddle(rest, x, y);
    NotHalves(rest, x, y, (|rest| - 3) / 2);
    OnlyAt(rest, Middle, |x|);
    FixedAtLastMiddle(line, rest, |x|);
  }

  /** A pattern that occurs only at `k` is last found there. */
  lemma OnlyAt(s: string, pat: string, k: nat)
    requires OccursAt(s, pat, k) && forall i :: OccursAt(s, pat, i) ==> i == k
    ensures LastAt(s, pat, |s| - |pat|) == Some(k)
  {
    LastAtIs(s, pat, |s| - |pat|, k);
  }

  /** When the text after `diff --git a/` is not two halves, the
      corrected reader splits at its last ` b/`. */
  lemma FixedAtLastMiddle(line: string, rest: string, k: nat)
    requires FirstLine(line) == line && |line| >= 13 && line[..13] == Front
    requires line[13..] == rest && |rest| >= 3 && !Halves(rest, (|rest| - 3) / 2)
    requires LastAt(rest, Middle, |rest| - |Middle|) == Some(k)
    ensures FixedHeaderNames(line) == Some((rest[..k], rest[k + 3..]))
  {
    RestAtLastMiddle(rest, k);
    FixedFromRest(line, rest);
  }

  lemma RestAtLastMiddle(rest: string, k: nat)
    requires |rest| >= 3 && !Halves(rest, (|rest| - 3) / 2)
    requires LastAt(rest, Middle, |rest| - |Middle|) == Some(k)
    ensures SplitRest(rest) == Some((rest[..k], rest[k + 3..]))
  {
  }

  /** A header line with git's prefix is read by `SplitRest` when that
      finds a separator. */
  lemma FixedFromRest(line: string, rest: string)
    requires FirstLine(line) == line && |line| >= 13 && line[..13] == Front
    requires line[13..] == rest && SplitRest(rest).Some?
    ensures FixedHeaderNames(line) == SplitRest(rest)
  {
  }

  /** `rest` is the name `x`, ` b/` and the name `y`. */
  predicate Joined(rest: string, x: string, y: string) {
    && |rest| == |x| + 3 + |y|
    && rest[..|x|] == x && rest[|x|..|x| + 3] == Middle && rest[|x| + 3..] == y
  }

  lemma JoinedConcat(x: string, y: string)
    ensures Joined(x + Middle + y, x, y)
  {
    Three(x, Middle, y);
  }

  /** Two different names do not make the halves of `x b/y`. */
  lemma NotHalves(rest: string, x: string, y: string, m: nat)
    requires Joined(rest, x, y) && x != y
    requires forall i :: OccursAt(rest, Middle, i) ==> i == |x|
    ensures !Halves(rest, m)
  {
    if Halves(rest, m) {
      assert OccursAt(rest, Middle, m);
    }
  }

  /** In `x b/y`, with ` b/` in neither name, ` b/` occurs once. */
  lemma OnlyMiddle(rest: string, x: string, y: string)
    requires Joined(rest, x, y) && Free(x, Middle) && Free(y, Middle)
    ensures OccursAt(rest, Middle, |x|)
    ensures forall i :: OccursAt(rest, Middle, i) ==> i == |x|
  {
    assert rest[|x|] == ' ' && rest[|x| + 1] == 'b' && rest[|x| + 2] == '/' by {
      assert rest[|x|] == rest[|x|..|x| + 3][0];
      assert rest[|x| + 1] == rest[|x|..|x| + 3][1];
      assert rest[|x| + 2] == rest[|x|..|x| + 3][2];
    }
    assert rest[|x| + 3..|x| + 3 + |y|] == y;
    forall i | 0 <= i && i != |x| ensures !OccursAt(rest, Middle, i) {
      if i + 3 <= |x| {
        Inner(rest, 0, x, i, 3);
        assert !OccursAt(x, Middle, i);
      } else if i >= |x| + 3 && i + 3 <= |rest| {
        Inner(rest, |x| + 3, y, i - |x| - 3, 3);
        assert !OccursAt(y, Middle, i - |x| - 3);
      } else if i + 3 <= |rest| {
        var w := rest[i..i + 3];
        assert w[0] == rest[i] && w[1] == rest[i + 1] && w[2] == rest[i + 2];
      }
    }
  }

  /** With the corrected reader, a section of a kept file is one entry
      under its own name, without a rename, whatever the name holds. */
  lemma FixedKeptSection(st: State, x: string, body: seq<string>)
    requires '\n' !in x && (|x| == 0 || (x[0] != '"' && x[|x| - 1] != '"'))
    requires AllBody(body)
    ensures Run(FixedHeaderNames, st, [DiffHeader(x, x)] + body)
         == Ok(State(st.outp[x := Appended(if x in st.outp then st.outp[x] else Empty, body)], x, x))
  {
    FixedKeptName(x);
    HeaderStartsDiff(x, x);
    StripNothing(x, IsQuote);
    Section(FixedHeaderNames, st, DiffHeader(x, x), body, x, x);
  }

  /** The same line the pattern misreads, read by the corrected reader. */
  lemma NestedNameKept()
    ensures Group(FixedHeaderNames, [DiffHeader("data/x", "data/x")])
         == Ok(map["data/x" := Empty])
  {
    assert Unquoted("data/x");
    FixedLoneHeader("data/x");
  }

  /** A lone header of a kept, unquoted name gives its empty entry. */
  lemma FixedLoneHeader(x: string)
    requires Unquoted(x)
    ensures Group(FixedHeaderNames, [DiffHeader(x, x)]) == Ok(map[x := Empty])
  {
    FixedKeptSection(Start, x, []);
    assert [DiffHeader(x, x)] + [] == [DiffHeader(x, x)];
    assert Appended(Empty, []) == Empty;
  }

  // ---------------------------------------------------------------------
  // The result of `git_diff`

  /** What `git_diff` returns on the lines git printed: the lines
      themselves with `nameonly=True`, the grouped dictionary otherwise. */
  datatype Diff = NameList(names: seq<string>) | PerFile(files: map<string, Entry>)

  /** `git_diff` after git has run, with `names` splitting the headers. */
  function ParseWith(names: NameReader, lines: seq<string>, namesOnly: bool): (r: Result<Diff>)
    ensures namesOnly ==> r == Ok(NameList(lines))
    ensures !namesOnly ==> (r.Raise? <==> exists i :: 0 <= i < |lines| && Bad(names, lines[i]))
    ensures !namesOnly && r.Ok? ==> r.value.PerFile?
  {
    if namesOnly then Ok(NameList(lines))
    else
      RunRaises(names, Start, lines);
      match Group(names, lines)
      case Raise(e) => Raise(e)
      case Ok(outp) => Ok(PerFile(outp))
  }

  /** `git_diff` as written: headers are split by the pattern. */
  function ParseGitDiff(lines: seq<string>, namesOnly: bool): (r: Result<Diff>)
    ensures namesOnly ==> r == Ok(NameList(lines))
    ensures !namesOnly ==> (r.Raise? <==> exists i :: 0 <= i < |lines| && Bad(HeaderNames, lines[i]))
    ensures !namesOnly && r.Ok? ==> r.value.PerFile?
  {
    ParseWith(HeaderNames, lines, namesOnly)
  }

  /** `git_diff` with the corrected header reader. */
  function FixedParseGitDiff(lines: seq<string>, namesOnly: bool): (r: Result<Diff>)
    ensures namesOnly ==> r == Ok(NameList(lines))
    ensures !namesOnly ==> (r.Raise? <==> exists i :: 0 <= i < |lines| && Bad(FixedHeaderNames, lines[i]))
    ensures !namesOnly && r.Ok? ==> r.value.PerFile?
  {
    ParseWith(FixedHeaderNames, lines, namesOnly)
  }

  /** The exception is the one of the first bad line: `AttributeError`
      from `.groups()` for a `diff` line, `IndexError` from `split()[1]`
      for a `---` or `+++` line. */
  lemma {:induction false} RunError(names: NameReader, st: State, lines: seq<string>, k: nat)
    requires k < |lines| && Bad(names, lines[k])
    requires forall i :: 0 <= i < k ==> !Bad(names, lines[i])
    ensures Run(names, st, lines)
         == Raise(if StartsWith(lines[k], "diff") then AttributeError else IndexError)
    decreases k
  {
    StepRaises(names, st, lines[0]);
    PrefixesDiffer(lines[0]);
    if k > 0 {
      var tail := lines[1..];
      assert forall i :: 0 <= i < |tail| ==> tail[i] == lines[i + 1];
      match Step(names, st, lines[0])
      case Ok(st') => RunError(names, st', tail, k - 1);
    }
  }

  lemma ParseError(lines: seq<string>, k: nat)
    requires k < |lines| && Bad(HeaderNames, lines[k])
    requires forall i :: 0 <= i < k ==> !Bad(HeaderNames, lines[i])
    ensures ParseGitDiff(lines, false)
         == Raise(if StartsWith(lines[k], "diff") then AttributeError else IndexError)
  {
    RunError(HeaderNames, Start, lines, k);
  }

  // ---------------------------------------------------------------------
  // Whole diffs of kept files

  /** A name git writes as is: one line, no quote at either end. */
  predicate Unquoted(x: string) {
    '\n' !in x && (|x| == 0 || (!IsQuote(x[0]) && !IsQuote(x[|x| - 1])))
  }

  /** The lines git prints for files kept under their names: per file a
      header, then its body. */
  function KeptLines(files: seq<(string, seq<string>)>): seq<string>
    decreases |files|
  {
    if |files| == 0 then []
    else ([DiffHeader(files[0].0, files[0].0)] + files[0].1) + KeptLines(files[1..])
  }

  /** Per file, the empty entry with its body appended. */
  function KeptMap(files: seq<(string, seq<string>)>): map<string, Entry>
    decreases |files|
  {
    if |files| == 0 then map[]
    else KeptMap(files[1..])[files[0].0 := Appended(Empty, files[0].1)]
  }

  lemma {:induction false} KeptMapKeys(files: seq<(string, seq<string>)>)
    ensures forall x :: x in KeptMap(files) <==> exists i :: 0 <= i < |files| && files[i].0 == x
    decreases |files|
  {
    if |files| > 0 {
      var tail := files[1..];
      KeptMapKeys(tail);
      assert forall i :: 0 <= i < |tail| ==> tail[i] == files[i + 1];
      forall x | x in KeptMap(files)
        ensures exists i :: 0 <= i < |files| && files[i].0 == x
      {
        if x != files[0].0 {
          assert x in KeptMap(tail);
          var i :| 0 <= i < |tail| && tail[i].0 == x;
          assert files[i + 1].0 == x;
        }
      }
    }
  }

  /** Distinct files, each with a body, whose headers `names` reads as the
      file's own name twice. */
  ghost predicate KeptFiles(names: NameReader, files: seq<(string, seq<string>)>) {
    && (forall i :: 0 <= i < |files| ==>
          names(DiffHeader(files[i].0, files[i].0)) == Some((files[i].0, files[i].0))
          && Unquoted(files[i].0) && AllBody(files[i].1))
    && (forall i, j :: 0 <= i < j < |files| ==> files[i].0 != files[j].0)
  }

  /** Sections of distinct kept files add one entry each, holding that
      file's `-` and `+` lines, and leave the entries already there alone. */
  lemma {:induction false} KeptRun(names: NameReader, st: State, files: seq<(string, seq<string>)>)
    requires KeptFiles(names, files)
    requires forall i :: 0 <= i < |files| ==> files[i].0 !in st.outp
    ensures Run(names, st, KeptLines(files)).Ok?
    ensures Run(names, st, KeptLines(files)).value.outp == st.outp + KeptMap(files)
    decreases |files|
  {
    if |files| > 0 {
      var x, body, tail := files[0].0, files[0].1, files[1..];
      var h := DiffHeader(x, x);
      var e := Appended(Empty, body);
      var st1 := State(st.outp[x := e], x, x);
      KeptSection(names, st, x, body);
      assert KeptLines(files) == ([h] + body) + KeptLines(tail);
      RunConcat(names, st, [h] + body, KeptLines(tail));
      KeptTail(names, st.outp, files, e);
      KeptRun(names, st1, tail);
      assert KeptMap(files) == KeptMap(tail)[x := e];
      UpdateUnion(st.outp, x, e, KeptMap(tail));
    }
  }

  /** What the rest of the files keep after the first one's section. */
  lemma KeptTail(names: NameReader, outp: map<string, Entry>, files: seq<(string, seq<string>)>, e: Entry)
    requires |files| > 0 && KeptFiles(names, files)
    requires forall i :: 0 <= i < |files| ==> files[i].0 !in outp
    ensures KeptFiles(names, files[1..])
    ensures forall i :: 0 <= i < |files| - 1 ==> files[1..][i].0 !in outp[files[0].0 := e]
    ensures files[0].0 !in KeptMap(files[1..])
  {
    var tail := files[1..];
    assert forall i :: 0 <= i < |tail| ==> tail[i] == files[i + 1];
    KeptMapKeys(tail);
  }

  /** One kept file's section, for a file that has no entry yet. */
  lemma KeptSection(names: NameReader, st: State, x: string, body: seq<string>)
    requires names(DiffHeader(x, x)) == Some((x, x)) && Unquoted(x) && AllBody(body)
    requires x !in st.outp
    ensures Run(names, st, [DiffHeader(x, x)] + body)
         == Ok(State(st.outp[x := Appended(Empty, body)], x, x))
  {
    HeaderStartsDiff(x, x);
    StripNothing(x, IsQuote);
    Section(names, st, DiffHeader(x, x), body, x, x);
  }

  lemma UpdateUnion<K, V>(m: map<K, V>, k: K, v: V, n: map<K, V>)
    requires k !in n
    ensures m[k := v] + n == m + n[k := v]
  {
  }

  lemma KeptParse(names: NameReader, files: seq<(string, seq<string>)>)
    requires KeptFiles(names, files)
    ensures ParseWith(names, KeptLines(files), false) == Ok(PerFile(KeptMap(files)))
  {
    KeptRun(names, Start, files);
    assert map[] + KeptMap(files) == KeptMap(files);
  }

  /** As written: a diff of kept files whose names hold neither `a/` nor
      `b/` is grouped into one entry per file, keyed by its name, holding
      exactly its removed and added lines. */
  lemma KeptDiff(files: seq<(string, seq<string>)>)
    requires forall i :: 0 <= i < |files| ==>
      Free(files[i].0, "a/") && Free(files[i].0, "b/") && Unquoted(files[i].0) && AllBody(files[i].1)
    requires forall i, j :: 0 <= i < j < |files| ==> files[i].0 != files[j].0
    ensures ParseGitDiff(KeptLines(files), false) == Ok(PerFile(KeptMap(files)))
  {
    forall i | 0 <= i < |files|
      ensures HeaderNames(DiffHeader(files[i].0, files[i].0)) == Some((files[i].0, files[i].0))
    {
      HeaderOfKeptName(files[i].0);
    }
    KeptParse(HeaderNames, files);
  }

  /** With the corrected reader the same holds for any unquoted names,
      `a/` and `b/` inside them included. */
  lemma FixedKeptDiff(files: seq<(string, seq<string>)>)
    requires forall i :: 0 <= i < |files| ==> Unquoted(files[i].0) && AllBody(files[i].1)
    requires forall i, j :: 0 <= i < j < |files| ==> files[i].0 != files[j].0
    ensures FixedParseGitDiff(KeptLines(files), false) == Ok(PerFile(KeptMap(files)))
  {
    forall i | 0 <= i < |files|
      ensures FixedHeaderNames(DiffHeader(files[i].0, files[i].0)) == Some((files[i].0, files[i].0))
    {
      FixedKeptName(files[i].0);
    }
    KeptParse(FixedHeaderNames, files);
  }
}
