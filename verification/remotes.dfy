/** The scans `git_remote_exist` and `git_remote_get` in
    `src/pggit/git_utils.py` run over the lines of `git remote -v`, each of
    the form `<alias>\t<url> (fetch)` or `<alias>\t<url> (push)`. Running
    git is not part of this model; its lines are the input. */
module Remotes {
  import opened Wrappers
  import opened Text

  /** Some line starts with the alias. */
  predicate Mentions(lines: seq<string>, alias: string) {
    exists i :: 0 <= i < |lines| && StartsWith(lines[i], alias)
  }

  /** The `for line in lines` loop of `git_remote_exist`. */
  method RemoteExist(lines: seq<string>, alias: string) returns (found: bool)
    ensures found <==> Mentions(lines, alias)
  {
    var k := 0;
    while k < |lines|
      invariant 0 <= k <= |lines|
      invariant forall i :: 0 <= i < k ==> !StartsWith(lines[i], alias)
    {
      if StartsWith(lines[k], alias) {
        return true;
      }
      k := k + 1;
    }
    return false;
  }

  /** The index of the first line that starts with the alias, if any. */
  function FirstMention(lines: seq<string>, alias: string): (r: Option<nat>)
    ensures r.Some? ==> r.value < |lines| && StartsWith(lines[r.value], alias)
    ensures r.Some? ==> forall i :: 0 <= i < r.value ==> !StartsWith(lines[i], alias)
    ensures r.None? <==> !Mentions(lines, alias)
    decreases |lines|
  {
    if |lines| == 0 then None
    else if StartsWith(lines[0], alias) then Some(0)
    else
      match FirstMention(lines[1..], alias)
      case None =>
        assert forall i :: 1 <= i < |lines| ==> lines[i] == lines[1..][i - 1];
        None
      case Some(k) =>
        assert forall i :: 1 <= i <= k + 1 ==> lines[i] == lines[1..][i - 1];
        Some(k + 1)
  }

  /** The `for line in lines` loop of `git_remote_get`: the second
      whitespace token of the first line that starts with the alias, `None`
      when no line does, and an `IndexError` when that line has a single
      token. */
  function RemoteGet(lines: seq<string>, alias: string): (r: Result<Option<string>>)
    ensures r == Ok(None) <==> !Mentions(lines, alias)
    ensures r.Ok? && r.value.Some? ==>
      (exists i :: 0 <= i < |lines| && StartsWith(lines[i], alias)
         && (forall j :: 0 <= j < i ==> !StartsWith(lines[j], alias))
         && |SplitWs(lines[i])| >= 2 && SplitWs(lines[i])[1] == r.value.value)
    ensures r.Raise? ==> r.error == IndexError
    ensures r.Raise? ==>
      (exists i :: 0 <= i < |lines| && StartsWith(lines[i], alias)
         && (forall j :: 0 <= j < i ==> !StartsWith(lines[j], alias))
         && |SplitWs(lines[i])| < 2)
  {
    match FirstMention(lines, alias)
    case None => Ok(None)
    case Some(i) =>
      var words := SplitWs(lines[i]);
      if |words| < 2 then Raise(IndexError) else Ok(Some(words[1]))
  }

  /** The loop over the lines of `git_remote_get`, as a method, agrees
      with the search for the first mention. */
  method RemoteGetLoop(lines: seq<string>, alias: string) returns (r: Result<Option<string>>)
    ensures r == RemoteGet(lines, alias)
    ensures r == Ok(None) <==> !Mentions(lines, alias)
  {
    var k := 0;
    while k < |lines|
      invariant 0 <= k <= |lines|
      invariant forall i :: 0 <= i < k ==> !StartsWith(lines[i], alias)
    {
      if StartsWith(lines[k], alias) {
        var words := SplitWs(lines[k]);
        if |words| < 2 {
          return Raise(IndexError);
        }
        return Ok(Some(words[1]));
      }
      k := k + 1;
    }
    return Ok(None);
  }

  /** Whatever `git_remote_get` finds, `git_remote_exist` reports. */
  lemma GetImpliesExist(lines: seq<string>, alias: string)
    ensures RemoteGet(lines, alias) != Ok(None) ==> Mentions(lines, alias)
  {
  }

  // ---------------------------------------------------------------------
  // Aliases that are prefixes of other aliases

  /** A line of `git remote -v`: alias, tab, url, space, direction. */
  function RemoteLine(name: string, url: string, dir: string): string {
    name + "\t" + url + " " + dir
  }

  /** The words of such a line, when none of its parts holds a space. */
  lemma RemoteWords(name: string, url: string, dir: string)
    requires |name| > 0 && Printable(name) && |url| > 0 && Printable(url)
    requires |dir| > 0 && Printable(dir)
    ensures StartsWith(RemoteLine(name, url, dir), name)
    ensures SplitWs(RemoteLine(name, url, dir)) == [name, url, dir]
  {
    SplitWsAtSpace(name + "\t" + url, ' ', dir);
    SplitWsAtSpace(name, '\t', url);
    PrintableWord(name);
    PrintableWord(url);
    PrintableWord(dir);
    StartsWithConcat(name, "\t");
    StartsWithAppend(name + "\t", name, url);
    StartsWithAppend(name + "\t" + url, name, " ");
    StartsWithAppend(name + "\t" + url + " ", name, dir);
  }

  /** As written, an alias that is only a prefix of an existing one, such
      as `o` beside `origin`, is reported to exist, and `git_remote_get`
      returns the url of `origin` for it. */
  lemma PrefixAliasFound()
    ensures Mentions([RemoteLine("origin", "u", "(fetch)")], "o")
    ensures RemoteGet([RemoteLine("origin", "u", "(fetch)")], "o") == Ok(Some("u"))
  {
    var line := RemoteLine("origin", "u", "(fetch)");
    assert Printable("origin") && Printable("u") && Printable("(fetch)");
    RemoteWords("origin", "u", "(fetch)");
    StartsWithSlice(line, "origin");
    assert line[0] == 'o' by {
      assert line[..6][0] == line[0];
    }
    assert StartsWith(line, "o");
    assert [line][0] == line;
  }

  /** The alias of a line: its first whitespace token. */
  function AliasOf(line: string): Option<string> {
    var words := SplitWs(line);
    if |words| == 0 then None else Some(words[0])
  }

  /** A remote exists when some line's alias is exactly the one asked
      for. */
  predicate FixedRemoteExist(lines: seq<string>, alias: string) {
    exists i :: 0 <= i < |lines| && AliasOf(lines[i]) == Some(alias)
  }

  /** With the exact comparison, the line of one remote names no other
      alias, prefixes included. */
  lemma FixedRemoteExact(name: string, url: string, dir: string, alias: string)
    requires |name| > 0 && Printable(name) && |url| > 0 && Printable(url)
    requires |dir| > 0 && Printable(dir)
    ensures FixedRemoteExist([RemoteLine(name, url, dir)], alias) <==> alias == name
  {
    RemoteWords(name, url, dir);
    assert [RemoteLine(name, url, dir)][0] == RemoteLine(name, url, dir);
  }

  /** The corrected test on the same input as above. */
  lemma PrefixAliasRejected()
    ensures !FixedRemoteExist([RemoteLine("origin", "u", "(fetch)")], "o")
    ensures FixedRemoteExist([RemoteLine("origin", "u", "(fetch)")], "origin")
  {
    assert Printable("origin") && Printable("u") && Printable("(fetch)");
    FixedRemoteExact("origin", "u", "(fetch)", "o");
    FixedRemoteExact("origin", "u", "(fetch)", "origin");
  }
}
