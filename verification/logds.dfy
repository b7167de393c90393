/** The log buffer of `LogDS` in `src/pggit/logds.py`: records are
    appended to day shards named by date and hash, and the shards touched
    by a pulled increment are reloaded. Files, the clock, the date parser,
    JSON decoding and the digest are fields of an environment. */
module LogBuffer {
  import opened Wrappers
  import opened Text
  import opened Canon

  /** One row of a shard: a log whose values have been rendered. */
  type Record = seq<(string, Value)>

  /** The buffer: shard path to the rows of its dataset. */
  type Buffer = map<string, seq<Record>>

  datatype Date = Date(year: nat, month: nat, day: nat)

  /** What the buffer reads from outside:
      - `dir`, the backup directory;
      - `render`, Python's `str()` on a value;
      - `parseDate`, `dateparser` (`None` for text it cannot read);
      - `now`, the `beijing()` clock, read once per operation;
      - `digest`, `md5` of `src/pggit/md5.py` on a log (a hash of its
        rendering, keys in their given order);
      - `disk`, the shard files that exist and their rows;
      - `decode`, `json.loads` (`None` when the text is not JSON). */
  datatype Env = Env(
    dir: string,
    render: Value -> string,
    parseDate: string -> Option<Date>,
    now: Date,
    digest: Value -> string,
    disk: Buffer,
    decode: string -> Option<Value>)

  /** Every shard of `a` is still in `b`, its rows a prefix of the rows
      there: nothing was dropped or rewritten, at most appended. */
  predicate Kept(a: Buffer, b: Buffer) {
    forall p :: p in a ==> p in b && a[p] <= b[p]
  }

  lemma KeptTransitive(a: Buffer, b: Buffer, c: Buffer)
    requires Kept(a, b) && Kept(b, c)
    ensures Kept(a, c)
  {
  }

  // ---------------------------------------------------------------------
  // __processlog

  /** `__processlog`: every value replaced by the string `str()` renders
      for it, keys and their order kept. */
  function ProcessLog(render: Value -> string, log: seq<(string, Value)>): (r: Record)
    ensures |r| == |log|
    ensures forall i :: 0 <= i < |r| ==> r[i].0 == log[i].0 && r[i].1.Str?
    ensures forall i :: 0 <= i < |r| ==> r[i].1.s == render(log[i].1)
  {
    seq(|log|, i requires 0 <= i < |log| => (log[i].0, Str(render(log[i].1))))
  }

  /** `str` of a string is the string itself, so processing a processed
      log changes nothing. */
  lemma ProcessLogIdempotent(render: Value -> string, log: seq<(string, Value)>)
    requires forall s :: render(Str(s)) == s
    ensures ProcessLog(render, ProcessLog(render, log)) == ProcessLog(render, log)
  {
  }

  // ---------------------------------------------------------------------
  // addlog

  /** `log[key]`, `None` when the key is absent; with repeated keys the
      last one counts, as in a dict built from them. */
  function Lookup(log: Record, key: string): (r: Option<Value>)
    ensures r.None? <==> forall i :: 0 <= i < |log| ==> log[i].0 != key
    ensures r.Some? ==> exists i :: 0 <= i < |log| && log[i] == (key, r.value)
                               && forall j :: i < j < |log| ==> log[j].0 != key
    decreases |log|
  {
    if |log| == 0 then None
    else if log[|log| - 1].0 == key then Some(log[|log| - 1].1)
    else Lookup(log[..|log| - 1], key)
  }

  /** The date of a processed log: its parsed `timestamp` when it has one
      the parser reads, otherwise the clock. */
  function LogDate(env: Env, rec: Record): (d: Date)
    ensures d != env.now ==>
      exists s :: Lookup(rec, "timestamp") == Some(Str(s)) && env.parseDate(s) == Some(d)
    ensures Lookup(rec, "timestamp").None? ==> d == env.now
    ensures forall s :: Lookup(rec, "timestamp") == Some(Str(s)) && env.parseDate(s).Some? ==>
      d == env.parseDate(s).value
  {
    match Lookup(rec, "timestamp")
    case Some(Str(s)) =>
      (match env.parseDate(s)
       case Some(d) => d
       case None => env.now)
    case _ => env.now
  }

  /** `text[:2]`. */
  function Prefix2(text: string): (p: string)
    ensures p <= text && |p| == (if |text| < 2 then |text| else 2)
  {
    if |text| < 2 then text else text[..2]
  }

  /** `os.sep.join([dir, year, month, day, md5(log)[:2] + ".json"])` on a
      POSIX system. */
  function ShardPath(env: Env, rec: Record): (path: string)
    ensures var d := LogDate(env, rec);
      path == env.dir + "/" + (Decimal(d.year) + "/" + (Decimal(d.month) + "/" + (Decimal(d.day)
        + "/" + (Prefix2(env.digest(Dict(rec))) + ".json"))))
  {
    var d := LogDate(env, rec);
    JoinFive(env.dir, Decimal(d.year), Decimal(d.month), Decimal(d.day),
             Prefix2(env.digest(Dict(rec))) + ".json");
    Join([env.dir, Decimal(d.year), Decimal(d.month), Decimal(d.day),
          Prefix2(env.digest(Dict(rec))) + ".json"], '/')
  }

  lemma JoinFive(a: string, b: string, c: string, d: string, e: string)
    ensures Join([a, b, c, d, e], '/') == a + "/" + (b + "/" + (c + "/" + (d + "/" + e)))
  {
    assert [d, e][1..] == [e];
    assert Join([d, e], '/') == d + "/" + e;
    assert [c, d, e][1..] == [d, e];
    assert Join([c, d, e], '/') == c + "/" + (d + "/" + e);
    assert [b, c, d, e][1..] == [c, d, e];
    assert Join([b, c, d, e], '/') == b + "/" + (c + "/" + (d + "/" + e));
    assert [a, b, c, d, e][1..] == [b, c, d, e];
  }

  /** The rows a shard starts from: the buffered ones, else those of the
      file on disk, else none. */
  function Initial(env: Env, buf: Buffer, path: string): seq<Record> {
    if path in buf then buf[path]
    else if path in env.disk then env.disk[path]
    else []
  }

  /** `addlog`: the processed log becomes the last row of exactly one
      shard, the one its date and hash name; every other shard is left
      alone. */
  function AddLog(env: Env, buf: Buffer, log: seq<(string, Value)>): (r: Buffer)
    ensures var rec := ProcessLog(env.render, log);
      var path := ShardPath(env, rec);
      && r.Keys == buf.Keys + {path}
      && |r[path]| > 0 && r[path][|r[path]| - 1] == rec
      && r[path][..|r[path]| - 1] == Initial(env, buf, path)
      && (forall q :: q in buf && q != path ==> r[q] == buf[q])
  {
    var rec := ProcessLog(env.render, log);
    var path := ShardPath(env, rec);
    var rows := Initial(env, buf, path) + [rec];
    assert rows[..|rows| - 1] == Initial(env, buf, path);
    buf[path := rows]
  }

  /** `addlog` only appends. */
  lemma AddLogKept(env: Env, buf: Buffer, log: seq<(string, Value)>)
    ensures Kept(buf, AddLog(env, buf, log))
  {
    var r := AddLog(env, buf, log);
    var path := ShardPath(env, ProcessLog(env.render, log));
    if path in buf {
      assert r[path][..|r[path]| - 1] == buf[path];
    }
  }

  /** Two logs whose date and hash name the same shard end up in that one
      shard, in the order they were added, and no other shard appears. */
  lemma AddLogSharedShard(env: Env, buf: Buffer, log1: seq<(string, Value)>, log2: seq<(string, Value)>)
    requires ShardPath(env, ProcessLog(env.render, log1)) == ShardPath(env, ProcessLog(env.render, log2))
    ensures var path := ShardPath(env, ProcessLog(env.render, log1));
      var r := AddLog(env, AddLog(env, buf, log1), log2);
      && r.Keys == buf.Keys + {path}
      && r[path] == Initial(env, buf, path) + [ProcessLog(env.render, log1), ProcessLog(env.render, log2)]
  {
    var rec1, rec2 := ProcessLog(env.render, log1), ProcessLog(env.render, log2);
    var path := ShardPath(env, rec1);
    var b1 := AddLog(env, buf, log1);
    var r := AddLog(env, b1, log2);
    assert b1[path] == Initial(env, buf, path) + [rec1] by {
      assert b1[path] == b1[path][..|b1[path]| - 1] + [b1[path][|b1[path]| - 1]];
    }
    assert r[path] == r[path][..|r[path]| - 1] + [r[path][|r[path]| - 1]];
  }

  // ---------------------------------------------------------------------
  // __load_increasement

  /** What a load leaves: the buffer, and the exception that stopped it
      part-way, if one did. */
  datatype Loaded = Loaded(buffer: Buffer, error: Option<PyError>)

  /** The line decodes to a JSON object, the only value `addlog` takes. */
  predicate IsObject(env: Env, line: string) {
    env.decode(line).Some? && env.decode(line).value.Dict?
  }

  predicate AllObjects(env: Env, lines: seq<string>) {
    forall i :: 0 <= i < |lines| ==> IsObject(env, lines[i])
  }

  /** What `self.addlog(json.loads(line))` raises on a line that is not an
      object: `ValueError` for text that is not JSON, `AttributeError`
      (no `items`) for JSON that is not an object. */
  function LineError(env: Env, line: string): PyError {
    if env.decode(line).None? then ValueError else AttributeError
  }

  /** `self.addlog(json.loads(line))` for each line in turn; the first line
      that is not an object stops the loop with its exception. */
  function AddLines(env: Env, buf: Buffer, lines: seq<string>): (r: Loaded)
    ensures Kept(buf, r.buffer)
    ensures r.error.None? <==> AllObjects(env, lines)
    ensures r.error == Some(ValueError) || r.error == Some(AttributeError) || r.error == None
    decreases |lines|
  {
    if |lines| == 0 then Loaded(buf, None)
    else
      assert AllObjects(env, lines) <==> IsObject(env, lines[0]) && AllObjects(env, lines[1..]) by {
        assert forall i :: 0 < i < |lines| ==> lines[i] == lines[1..][i - 1];
      }
      match env.decode(lines[0])
      case None => Loaded(buf, Some(LineError(env, lines[0])))
      case Some(Dict(log)) =>
        var b := AddLog(env, buf, log);
        AddLogKept(env, buf, log);
        var r := AddLines(env, b, lines[1..]);
        KeptTransitive(buf, b, r.buffer);
        r
      case Some(_) => Loaded(buf, Some(LineError(env, lines[0])))
  }

  /** The first line that is not an object ends the load with its
      exception, and the buffer holds exactly what the lines before it
      added. */
  lemma {:induction false} AddLinesStops(env: Env, buf: Buffer, lines: seq<string>, k: nat)
    requires k < |lines| && AllObjects(env, lines[..k]) && !IsObject(env, lines[k])
    ensures AddLines(env, buf, lines)
         == Loaded(AddLines(env, buf, lines[..k]).buffer, Some(LineError(env, lines[k])))
    decreases k
  {
    if k > 0 {
      assert IsObject(env, lines[..k][0]);
      var log := env.decode(lines[0]).value.entries;
      var tail := lines[1..];
      assert tail[..k - 1] == lines[..k][1..];
      var u := tail[..k - 1];
      assert AllObjects(env, u) by {
        forall i | 0 <= i < |u| ensures IsObject(env, u[i]) {
          assert u[i] == lines[..k][i + 1];
        }
      }
      AddLinesStops(env, AddLog(env, buf, log), tail, k - 1);
    }
  }

  /** The processed records of lines that are all objects, in order. */
  function Records(env: Env, lines: seq<string>): (recs: seq<Record>)
    requires AllObjects(env, lines)
    ensures |recs| == |lines|
    ensures forall i :: 0 <= i < |lines| ==>
      recs[i] == ProcessLog(env.render, env.decode(lines[i]).value.entries)
  {
    seq(|lines|, i requires 0 <= i < |lines| => ProcessLog(env.render, env.decode(lines[i]).value.entries))
  }

  /** The records of `recs` whose shard is `p`, in order. */
  function Landing(env: Env, recs: seq<Record>, p: string): seq<Record>
    decreases |recs|
  {
    if |recs| == 0 then []
    else (if ShardPath(env, recs[0]) == p then [recs[0]] else []) + Landing(env, recs[1..], p)
  }

  /** The shards the records of `recs` go to. */
  function Paths(env: Env, recs: seq<Record>): set<string> {
    set i | 0 <= i < |recs| :: ShardPath(env, recs[i])
  }

  /** When every line is an object, the load succeeds and adds exactly
      the shards its records go to. */
  lemma {:induction false} AddLinesKeys(env: Env, buf: Buffer, lines: seq<string>)
    requires AllObjects(env, lines)
    ensures AddLines(env, buf, lines).error.None?
    ensures AddLines(env, buf, lines).buffer.Keys == buf.Keys + Paths(env, Records(env, lines))
    decreases |lines|
  {
    if |lines| > 0 {
      var recs := Records(env, lines);
      var log := env.decode(lines[0]).value.entries;
      var b := AddLog(env, buf, log);
      RecordsTail(env, lines);
      AddLinesKeys(env, b, lines[1..]);
      AddLinesCons(env, buf, lines);
      PathsCons(env, recs);
    }
  }

  /** Each shard the load leaves is the rows it started from followed by
      the records that belong there, in the order of the lines. */
  lemma {:induction false} AddLinesRows(env: Env, buf: Buffer, lines: seq<string>)
    requires AllObjects(env, lines)
    ensures var r := AddLines(env, buf, lines).buffer;
      forall p :: p in r ==> r[p] == Initial(env, buf, p) + Landing(env, Records(env, lines), p)
    decreases |lines|
  {
    if |lines| > 0 {
      var recs := Records(env, lines);
      var log := env.decode(lines[0]).value.entries;
      var b := AddLog(env, buf, log);
      RecordsTail(env, lines);
      var rest := recs[1..];
      AddLinesRows(env, b, lines[1..]);
      var r := AddLines(env, b, lines[1..]);
      AddLinesCons(env, buf, lines);
      forall p | p in r.buffer ensures r.buffer[p] == Initial(env, buf, p) + Landing(env, recs, p) {
        InitialAfterAdd(env, buf, log, p);
        var here := if ShardPath(env, recs[0]) == p then [recs[0]] else [];
        assert r.buffer[p] == (Initial(env, buf, p) + here) + Landing(env, rest, p);
        assert Landing(env, recs, p) == here + Landing(env, rest, p);
        AppendAssoc(Initial(env, buf, p), here, Landing(env, rest, p));
      }
    }
  }

  /** A load whose first line is an object is `addlog` of that line and
      the load of the rest. */
  lemma AddLinesCons(env: Env, buf: Buffer, lines: seq<string>)
    requires |lines| > 0 && IsObject(env, lines[0])
    ensures AddLines(env, buf, lines)
         == AddLines(env, AddLog(env, buf, env.decode(lines[0]).value.entries), lines[1..])
  {
  }

  lemma RecordsTail(env: Env, lines: seq<string>)
    requires |lines| > 0 && AllObjects(env, lines)
    ensures IsObject(env, lines[0]) && AllObjects(env, lines[1..])
    ensures Records(env, lines)[0] == ProcessLog(env.render, env.decode(lines[0]).value.entries)
    ensures Records(env, lines[1..]) == Records(env, lines)[1..]
  {
    var tail := lines[1..];
    forall i | 0 <= i < |tail| ensures IsObject(env, tail[i]) {
      assert tail[i] == lines[i + 1];
    }
  }

  lemma PathsCons(env: Env, recs: seq<Record>)
    requires |recs| > 0
    ensures Paths(env, recs) == {ShardPath(env, recs[0])} + Paths(env, recs[1..])
  {
    var rest := recs[1..];
    forall q | q in Paths(env, recs) ensures q in {ShardPath(env, recs[0])} + Paths(env, rest) {
      var i :| 0 <= i < |recs| && ShardPath(env, recs[i]) == q;
      if i > 0 {
        assert recs[i] == rest[i - 1];
      }
    }
    forall q | q in Paths(env, rest) ensures q in Paths(env, recs) {
      var i :| 0 <= i < |rest| && ShardPath(env, rest[i]) == q;
      assert rest[i] == recs[i + 1];
    }
  }

  /** After `addlog`, the rows a shard starts from are the earlier ones
      plus the new record when the shard is the record's. */
  lemma InitialAfterAdd(env: Env, buf: Buffer, log: seq<(string, Value)>, p: string)
    ensures var rec := ProcessLog(env.render, log);
      Initial(env, AddLog(env, buf, log), p) ==
        Initial(env, buf, p) + (if ShardPath(env, rec) == p then [rec] else [])
  {
    var rec := ProcessLog(env.render, log);
    var path := ShardPath(env, rec);
    var b := AddLog(env, buf, log);
    assert b[path] == b[path][..|b[path]| - 1] + [b[path][|b[path]| - 1]];
  }

  lemma AppendAssoc<T>(a: seq<T>, b: seq<T>, c: seq<T>)
    ensures (a + b) + c == a + (b + c)
  {
  }

  /** Loading `a + b` is loading `a` and then, unless that raised, `b`. */
  lemma {:induction false} AddLinesConcat(env: Env, buf: Buffer, a: seq<string>, b: seq<string>)
    ensures AddLines(env, buf, a + b) ==
      var l := AddLines(env, buf, a);
      if l.error.Some? then l else AddLines(env, l.buffer, b)
    decreases |a|
  {
    if |a| > 0 {
      assert (a + b)[0] == a[0] && (a + b)[1..] == a[1..] + b;
      match env.decode(a[0])
      case None =>
      case Some(v) =>
        if v.Dict? {
          AddLinesConcat(env, AddLog(env, buf, v.entries), a[1..], b);
        }
    } else {
      assert a + b == b;
    }
  }

  /** `os.sep.join([dir, filename])`. */
  function FilePath(env: Env, name: string): string {
    Join([env.dir, name], '/')
  }

  /** `__load_increasement`: `popitem` takes the files last one first; the
      lines of a file are loaded only when its path is a buffer key at that
      moment, and every file is taken off the increment. A load fails only
      on a line that is not an object. */
  function Load(env: Env, buf: Buffer, inc: seq<(string, seq<string>)>): (r: Loaded)
    ensures Kept(buf, r.buffer)
    ensures r.error.Some? ==>
      exists i, j :: 0 <= i < |inc| && 0 <= j < |inc[i].1| && !IsObject(env, inc[i].1[j])
    ensures r.error == Some(ValueError) || r.error == Some(AttributeError) || r.error == None
    decreases |inc|
  {
    if |inc| == 0 then Loaded(buf, None)
    else
      var (name, lines) := inc[|inc| - 1];
      assert forall i :: 0 <= i < |inc| - 1 ==> inc[..|inc| - 1][i] == inc[i];
      if FilePath(env, name) in buf then
        var l := AddLines(env, buf, lines);
        if l.error.Some? then l
        else
          var r := Load(env, l.buffer, inc[..|inc| - 1]);
          KeptTransitive(buf, l.buffer, r.buffer);
          r
      else Load(env, buf, inc[..|inc| - 1])
  }

  /** The lines of an increment in the order `popitem` hands them out:
      the last file's first. */
  function Feed(inc: seq<(string, seq<string>)>): seq<string>
    decreases |inc|
  {
    if |inc| == 0 then [] else inc[|inc| - 1].1 + Feed(inc[..|inc| - 1])
  }

  /** When every file of the increment is buffered, the load feeds all of
      their lines, last file first, to `addlog`. */
  lemma {:induction false} LoadAllBuffered(env: Env, buf: Buffer, inc: seq<(string, seq<string>)>)
    requires forall i :: 0 <= i < |inc| ==> FilePath(env, inc[i].0) in buf
    ensures Load(env, buf, inc) == AddLines(env, buf, Feed(inc))
    decreases |inc|
  {
    if |inc| > 0 {
      var (name, lines) := inc[|inc| - 1];
      var front := inc[..|inc| - 1];
      AddLinesConcat(env, buf, lines, Feed(front));
      var l := AddLines(env, buf, lines);
      if l.error.None? {
        assert forall i :: 0 <= i < |front| ==> front[i] == inc[i];
        LoadAllBuffered(env, l.buffer, front);
      }
    }
  }

  /** An increment none of whose files is buffered loads nothing. */
  lemma {:induction false} LoadUnbuffered(env: Env, buf: Buffer, inc: seq<(string, seq<string>)>)
    requires forall i :: 0 <= i < |inc| ==> FilePath(env, inc[i].0) !in buf
    ensures Load(env, buf, inc) == Loaded(buf, None)
    decreases |inc|
  {
    if |inc| > 0 {
      LoadUnbuffered(env, buf, inc[..|inc| - 1]);
    }
  }

  /** Loading `a + b` loads the files of `b` first and then, unless that
      raised, those of `a`. */
  lemma {:induction false} LoadSplit(env: Env, buf: Buffer, a: seq<(string, seq<string>)>,
                                     b: seq<(string, seq<string>)>)
    ensures Load(env, buf, a + b) ==
      var l := Load(env, buf, b);
      if l.error.Some? then l else Load(env, l.buffer, a)
    decreases |b|
  {
    if |b| == 0 {
      assert a + b == a;
    } else {
      var ab := a + b;
      assert ab[|ab| - 1] == b[|b| - 1];
      assert ab[..|ab| - 1] == a + b[..|b| - 1];
      var (name, lines) := b[|b| - 1];
      if FilePath(env, name) in buf {
        var l := AddLines(env, buf, lines);
        if l.error.None? {
          LoadSplit(env, l.buffer, a, b[..|b| - 1]);
        }
      } else {
        LoadSplit(env, buf, a, b[..|b| - 1]);
      }
    }
  }

  /** The lines of a file are never read when, by the time `popitem`
      reaches it, its path is not a buffer key: any other lines give the
      same load. */
  lemma LoadIgnoresUnbuffered(env: Env, buf: Buffer, inc: seq<(string, seq<string>)>,
                              i: nat, other: seq<string>)
    requires i < |inc|
    requires var l := Load(env, buf, inc[i + 1..]);
      l.error.Some? || FilePath(env, inc[i].0) !in l.buffer
    ensures Load(env, buf, inc[i := (inc[i].0, other)]) == Load(env, buf, inc)
  {
    var inc' := inc[i := (inc[i].0, other)];
    var a, b := inc[..i + 1], inc[i + 1..];
    var a' := inc'[..i + 1];
    assert inc == a + b && inc' == a' + b;
    assert inc'[i + 1..] == b;
    LoadSplit(env, buf, a, b);
    LoadSplit(env, buf, a', b);
    var l := Load(env, buf, b);
    if l.error.None? {
      assert a[..i] == a'[..i];
      assert a[|a| - 1].0 == a'[|a'| - 1].0;
    }
  }
}

/** The synchronise and backup decisions of `LogDS` in
    `src/pggit/logds.py`. Each call into git or the hub is an outcome in
    a `World`; what the code attempts is recorded as a trace of actions. */
module LogSync {
  import opened Wrappers
  import opened Text
  import opened LogBuffer

  /** How a call into git or the hub ended: failures carry the text of the
      exception. */
  datatype Outcome = Done | Failed(message: string)

  /** What the outside world answers during one synchronisation: the
      clone, the head hash before and after the pull, the pull, and the
      increment read from the diff (`None` when it cannot be read). */
  datatype World = World(
    clone: Outcome,
    headBefore: string,
    pull: Outcome,
    headAfter: string,
    increment: Option<seq<(string, seq<string>)>>)

  datatype Action =
    | Clone
    | Pull
    | ConfigLfs
    | ResetHard
    | Diff
    | LoadIncrement
    | Write(shards: Buffer)
    | Push

  /** The part of `LogDS` that survives between calls: whether the
      repository has been cloned, and the buffer. */
  datatype Node = Node(cloned: bool, buffer: Buffer)

  /** The state after a call, the actions it attempted and what it
      returned or raised. */
  datatype Run = Run(node: Node, trace: seq<Action>, result: Result<bool>)

  /** The start of the error text after which the pull and the push turn
      off the LFS lock check. */
  const LfsRefusal := "Remote \"origin\" does not support the Git LFS locking API"

  /** The actions of a pull or a push that ended with `o`. */
  function Attempt(act: Action, o: Outcome): (t: seq<Action>)
    requires act == Pull || act == Push
    ensures |t| >= 1 && t[0] == act
    ensures ConfigLfs in t <==> o.Failed? && StartsWith(o.message, LfsRefusal)
  {
    if o.Failed? && StartsWith(o.message, LfsRefusal) then [act, ConfigLfs] else [act]
  }

  /** `__synchronize`. */
  function Synchronize(env: Env, node: Node, w: World): (r: Run)
    ensures r.result == Ok(false) <==>
      || (!node.cloned && w.clone.Failed?)
      || ((node.cloned || w.clone.Done?) && w.pull.Failed?)
      || ((node.cloned || w.clone.Done?) && w.pull.Done? && w.headAfter != w.headBefore
          && w.increment.None?)
    ensures r.result != Ok(true) && r.result.Ok? ==> r.node.buffer == node.buffer
    ensures Kept(node.buffer, r.node.buffer)
    ensures !node.cloned && w.clone.Failed? ==> !r.node.cloned && Pull !in r.trace
    ensures (node.cloned || w.clone.Done?) ==> r.node.cloned && Pull in r.trace
    ensures w.pull.Failed? && Pull in r.trace ==> ResetHard in r.trace && r.result == Ok(false)
    ensures Push !in r.trace && (forall b :: Write(b) !in r.trace)
  {
    var t := if node.cloned then [] else [Clone];
    if !node.cloned && w.clone.Failed? then Run(node, [Clone], Ok(false))
    else
      var n := node.(cloned := true);
      if w.pull.Failed? then Run(n, t + Attempt(Pull, w.pull) + [ResetHard], Ok(false))
      else if w.headAfter == w.headBefore then Run(n, t + [Pull], Ok(true))
      else
        match w.increment
        case None => Run(n, t + [Pull, Diff], Ok(false))
        case Some(inc) =>
          var l := Load(env, n.buffer, inc);
          Run(n.(buffer := l.buffer), t + [Pull, Diff, LoadIncrement],
              if l.error.Some? then Raise(l.error.value) else Ok(true))
  }

  /** A synchronisation raises only what loading a line raises. */
  lemma SynchronizeRaises(env: Env, node: Node, w: World)
    ensures var r := Synchronize(env, node, w);
      r.result.Raise? ==> r.result.error == ValueError || r.result.error == AttributeError
  {
  }

  /** An unchanged head means nothing is loaded: the buffer is as it was
      and the call succeeds. */
  lemma SynchronizeUnchangedHead(env: Env, node: Node, w: World)
    requires node.cloned || w.clone.Done?
    requires w.pull.Done? && w.headAfter == w.headBefore
    ensures Synchronize(env, node, w) == Run(node.(cloned := true), Synchronize(env, node, w).trace, Ok(true))
    ensures LoadIncrement !in Synchronize(env, node, w).trace
  {
  }

  /** A moved head with a readable increment loads it into the buffer. */
  lemma SynchronizeLoads(env: Env, node: Node, w: World)
    requires node.cloned || w.clone.Done?
    requires w.pull.Done? && w.headAfter != w.headBefore && w.increment.Some?
    ensures var l := Load(env, node.buffer, w.increment.value);
      && Synchronize(env, node, w).node.buffer == l.buffer
      && (Synchronize(env, node, w).result == Ok(true) <==> l.error.None?)
  {
  }

  /** The answer to a failed pull does not depend on its message: a reset
      is attempted and the call fails either way. */
  lemma PullFailureIgnoresMessage(env: Env, node: Node, w: World, m1: string, m2: string)
    requires node.cloned
    ensures var r1 := Synchronize(env, node, w.(pull := Failed(m1)));
      var r2 := Synchronize(env, node, w.(pull := Failed(m2)));
      && r1.node == r2.node == node
      && r1.result == r2.result == Ok(false)
      && ResetHard in r1.trace && ResetHard in r2.trace
  {
  }

  /** A successful pull that moved the head: the case in which the
      increment is asked for. */
  predicate Moved(node: Node, w: World) {
    (node.cloned || w.clone.Done?) && w.pull.Done? && w.headAfter != w.headBefore
  }

  /** `__synchronize` as written. The increment is asked of
      `git_utils.git_diff_content`, but the `git_utils` module beside
      `logds.py` defines no such function, so the attribute lookup raises
      `AttributeError` before anything is loaded. Every other path is the
      one of `Synchronize`. */
  function SynchronizeAsWritten(env: Env, node: Node, w: World): (r: Run)
    ensures Moved(node, w) ==>
      && r.result == Raise(AttributeError) && r.node.buffer == node.buffer
      && LoadIncrement !in r.trace && r.node.cloned
    ensures !Moved(node, w) ==> r == Synchronize(env, node, w)
  {
    if Moved(node, w) then
      Run(node.(cloned := true), (if node.cloned then [] else [Clone]) + [Pull], Raise(AttributeError))
    else Synchronize(env, node, w)
  }

  /** As written, no pulled increment is ever loaded: whatever the
      increment holds, a moved head raises, while the intended call loads
      the increment and returns true when its lines decode. */
  lemma MovedHeadRaises(env: Env, node: Node, w: World)
    requires Moved(node, w) && w.increment.Some?
    requires Load(env, node.buffer, w.increment.value).error.None?
    ensures SynchronizeAsWritten(env, node, w).result == Raise(AttributeError)
    ensures Synchronize(env, node, w).result == Ok(true)
    ensures LoadIncrement in Synchronize(env, node, w).trace
  {
  }

  /** `__backup`. Writing the shards is not guarded: when `write` fails,
      its exception escapes after some shards may have been written, with
      nothing pushed and the buffer kept. */
  function Backup(env: Env, node: Node, alive: bool, w: World, write: Outcome, push: Outcome): (r: Run)
    ensures |node.buffer| == 0 || alive ==> r == Run(node, [], Ok(true))
    ensures Synchronize(env, node, w).result == Ok(false) && |node.buffer| > 0 && !alive ==>
      r.result == Ok(false) && r.node.buffer == node.buffer && Push !in r.trace
    ensures r.result == Ok(true) <==>
      || |node.buffer| == 0 || alive
      || (Synchronize(env, node, w).result == Ok(true) && write.Done? && push.Done?)
    ensures r.result == Ok(true) && |node.buffer| > 0 && !alive ==> r.node.buffer == map[]
    ensures r.result == Raise(OSError) <==>
      |node.buffer| > 0 && !alive && Synchronize(env, node, w).result == Ok(true) && write.Failed?
    ensures |node.buffer| > 0 && !alive && Synchronize(env, node, w).result.Raise? ==>
      r == Synchronize(env, node, w)
  {
    if |node.buffer| == 0 || alive then Run(node, [], Ok(true))
    else
      var s := Synchronize(env, node, w);
      SynchronizeRaises(env, node, w);
      if s.result != Ok(true) then s
      else
        var n := s.node;
        var t := s.trace + [Write(n.buffer)];
        if write.Failed? then Run(n, t, Raise(OSError))
        else if push.Failed? then Run(n, t + Attempt(Push, push) + [ResetHard], Ok(false))
        else Run(n.(buffer := map[]), t + [Push], Ok(true))
  }

  /** A failed write ends the backup with its exception: every buffered
      record is kept and nothing is pushed or reset. */
  lemma WriteFailureKeeps(env: Env, node: Node, w: World, write: Outcome, push: Outcome)
    requires |node.buffer| > 0 && Synchronize(env, node, w).result == Ok(true)
    requires write.Failed?
    ensures var r := Backup(env, node, false, w, write, push);
      && r.result == Raise(OSError) && Push !in r.trace && ResetHard !in r.trace
      && Kept(node.buffer, r.node.buffer)
      && r.trace[|r.trace| - 1] == Write(r.node.buffer)
  {
    var s := Synchronize(env, node, w);
    var r := Backup(env, node, false, w, write, push);
    assert r.trace == s.trace + [Write(s.node.buffer)];
    assert ResetHard !in s.trace by {
      assert w.pull.Done?;
    }
  }

  /** A failed push keeps every buffered record, attempts a reset and
      fails. */
  lemma PushFailureKeeps(env: Env, node: Node, w: World, push: Outcome)
    requires |node.buffer| > 0 && Synchronize(env, node, w).result == Ok(true)
    requires push.Failed?
    ensures var r := Backup(env, node, false, w, Done, push);
      && r.result == Ok(false) && ResetHard in r.trace && Push in r.trace
      && Kept(node.buffer, r.node.buffer)
  {
    var s := Synchronize(env, node, w);
    var r := Backup(env, node, false, w, Done, push);
    assert r.trace == s.trace + [Write(s.node.buffer)] + Attempt(Push, push) + [ResetHard];
    assert r.trace[|s.trace| + 1] == Push;
  }

  /** After a failed push the records wait in the buffer; the next backup
      that synchronises, writes and pushes successfully clears it. */
  lemma RetryAfterPushFailure(env: Env, node: Node, w: World, push: Outcome, w': World)
    requires |node.buffer| > 0 && Synchronize(env, node, w).result == Ok(true)
    requires push.Failed?
    requires Synchronize(env, Backup(env, node, false, w, Done, push).node, w').result == Ok(true)
    ensures var n := Backup(env, node, false, w, Done, push).node;
      && |n.buffer| > 0
      && Backup(env, n, false, w', Done, Done).result == Ok(true)
      && Backup(env, n, false, w', Done, Done).node.buffer == map[]
  {
    PushFailureKeeps(env, node, w, push);
    var n := Backup(env, node, false, w, Done, push).node;
    var p :| p in node.buffer;
    assert p in n.buffer;
  }

  /** No record is lost: after a backup every record that was buffered is
      still buffered, or the backup succeeded after writing all of them
      and pushing. A failed write keeps them too. */
  lemma NoRecordLost(env: Env, node: Node, alive: bool, w: World, write: Outcome, push: Outcome)
    ensures var r := Backup(env, node, alive, w, write, push);
      || Kept(node.buffer, r.node.buffer)
      || (&& r.result == Ok(true) && Push in r.trace
          && exists i :: 0 <= i < |r.trace| && r.trace[i].Write? && Kept(node.buffer, r.trace[i].shards))
    ensures Backup(env, node, alive, w, write, push).result.Raise? ==>
      Kept(node.buffer, Backup(env, node, alive, w, write, push).node.buffer)
  {
    var r := Backup(env, node, alive, w, write, push);
    if |node.buffer| > 0 && !alive {
      var s := Synchronize(env, node, w);
      if s.result == Ok(true) && write.Done? && push.Done? {
        assert r.trace == s.trace + [Write(s.node.buffer)] + [Push];
        assert r.trace[|s.trace|] == Write(s.node.buffer);
        assert r.trace[|s.trace| + 1] == Push;
      }
    }
  }

  /** A push happens only after a successful synchronisation and a
      successful write of the whole buffer. */
  lemma PushOnlyAfterWrite(env: Env, node: Node, alive: bool, w: World, write: Outcome, push: Outcome)
    ensures var r := Backup(env, node, alive, w, write, push);
      Push in r.trace ==>
        && Synchronize(env, node, w).result == Ok(true)
        && write.Done?
        && r.trace[|Synchronize(env, node, w).trace|] == Write(Synchronize(env, node, w).node.buffer)
  {
    var r := Backup(env, node, alive, w, write, push);
    if |node.buffer| > 0 && !alive && Synchronize(env, node, w).result == Ok(true) && write.Failed? {
      assert r.trace == Synchronize(env, node, w).trace + [Write(Synchronize(env, node, w).node.buffer)];
    }
  }
}
