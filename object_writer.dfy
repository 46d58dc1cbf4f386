/**
 * ResumableObjectWriter.swift: a content-addressed object directory plus an
 * append-only commit log under one snapshot root. A chunk whose object exists
 * is skipped; otherwise its ciphertext goes to `objects/<hash>.chunk.tmp`, is
 * renamed to `objects/<hash>.chunk`, and only then is `PUT <hash>` logged.
 * The audit replays the log and reports logged hashes whose object is missing.
 *
 * The file system is three values: the objects by hash, the leftover
 * temporary files by hash, and the commit log. Whether an I/O call fails is a
 * parameter (an `IoPlan`), since a batch attempts each hash at most once.
 */
module ObjectStore {
  import opened Wrappers
  import opened Crypto
  import opened Chunking

  type Hash = string

  /** The commit log: absent, readable UTF-8 text, or bytes that do not decode as UTF-8. */
  datatype LogFile = NoLog | LogText(text: string) | NotUtf8

  datatype StoreState = StoreState(objects: map<Hash, Bytes>, temps: map<Hash, Bytes>, log: LogFile)

  /** Which `FileHandle` call throws when appending to an existing log. */
  datatype HandleFault = NoFault | SeekOrWriteThrows | CloseThrows

  /** The I/O behaviour of one `appendCommitLine` call. */
  datatype LogIo = LogIo(handleOpens: bool, fault: HandleFault, rewriteFails: bool)

  /** The I/O behaviour of a `writeChunks` batch, per hash. */
  datatype IoPlan = IoPlan(tempWriteFails: Hash -> bool, renameFails: Hash -> bool, logIo: Hash -> LogIo)

  datatype IoError =
    | CreateDirectoryFailed(path: string)
    | WriteFailed(path: string)
    | MoveFailed(path: string)
    | LogAppendFailed
    | LogRewriteFailed

  function ObjectPath(h: Hash): string { "objects/" + h + ".chunk" }
  function TempPath(h: Hash): string { ObjectPath(h) + ".tmp" }

  function CommitLine(h: Hash): string { "PUT " + h + "\n" }

  /**
   * Text whose every character is a newline or printable ASCII. On such text a
   * Unicode scalar is a whole Swift `Character` (only "\r\n" and combining
   * marks join scalars), so splitting it by scalars, as this model does, cuts
   * it where Swift's `split(separator:)` does.
   */
  predicate PlainText(t: string)
  {
    forall i :: 0 <= i < |t| ==> t[i] == '\n' || ' ' <= t[i] <= '~'
  }

  /** A hash that survives the log's line and field splitting intact: printable ASCII without a space. */
  predicate WellFormedHash(h: Hash)
  {
    h != [] && forall i :: 0 <= i < |h| ==> '!' <= h[i] <= '~'
  }

  lemma WellFormedHashSeparators(h: Hash)
    requires WellFormedHash(h)
    ensures ' ' !in h && '\n' !in h && PlainText(h)
  {
  }

  // ---------------------------------------------------------------- commit log

  function Appended(log: LogFile, line: string): LogFile
    requires !log.NoLog?
  {
    match log
    case LogText(t) => LogText(t + line)
    case NotUtf8 => NotUtf8
  }

  /**
   * `appendCommitLine(_:)`: an existing log that opens for writing is appended
   * to (a throw from seek or write leaves it as it was; a throw from close comes
   * after the bytes are written). An absent log, or one that does not open, is
   * replaced atomically by the single line.
   */
  function AppendLine(log: LogFile, line: string, io: LogIo): (LogFile, Outcome<IoError>)
  {
    if !log.NoLog? && io.handleOpens then
      match io.fault
      case NoFault => (Appended(log, line), Pass)
      case SeekOrWriteThrows => (log, Fail(LogAppendFailed))
      case CloseThrows => (Appended(log, line), Fail(LogAppendFailed))
    else if io.rewriteFails then (log, Fail(LogRewriteFailed))
    else (LogText(line), Pass)
  }

  /**
   * A successful append leaves the line at the end of a readable log, after
   * everything already there when the log was appended to rather than replaced;
   * a failure before any byte is written leaves the log as it was.
   */
  lemma AppendLineEffect(log: LogFile, line: string, io: LogIo)
    ensures AppendLine(log, line, io).1.Pass? && AppendLine(log, line, io).0.LogText? ==>
      var t := AppendLine(log, line, io).0.text;
      |line| <= |t| && t[|t| - |line|..] == line
    ensures AppendLine(log, line, io).1.Pass? && log.LogText? && io.handleOpens ==>
      AppendLine(log, line, io).0.text[..|log.text|] == log.text
    ensures AppendLine(log, line, io).1.Pass? <==>
      (!log.NoLog? && io.handleOpens && io.fault.NoFault?) || ((log.NoLog? || !io.handleOpens) && !io.rewriteFails)
    ensures AppendLine(log, line, io).1.Fail? && !io.fault.CloseThrows? ==> AppendLine(log, line, io).0 == log
  {
    var (log', o) := AppendLine(log, line, io);
    if o.Pass? && log'.LogText? && log.LogText? && io.handleOpens {
      assert log'.text == log.text + line;
    }
  }

  // ---------------------------------------------------------------- writing

  /** One iteration of `writeChunks`. */
  function WriteOne(s: StoreState, c: Chunk, io: IoPlan): (StoreState, Outcome<IoError>)
  {
    var h := c.hash;
    if h in s.objects then (s, Pass)
    else if io.tempWriteFails(h) then (s, Fail(WriteFailed(TempPath(h))))
    else if io.renameFails(h) then (s.(temps := s.temps[h := c.ciphertext]), Fail(MoveFailed(TempPath(h))))
    else
      var (log', o) := AppendLine(s.log, CommitLine(h), io.logIo(h));
      (StoreState(s.objects[h := c.ciphertext], s.temps - {h}, log'), o)
  }

  /** `writeChunks(_:)`: the chunks in order, stopping at the first failure. */
  function WriteAll(s: StoreState, cs: seq<Chunk>, io: IoPlan): (StoreState, Outcome<IoError>)
    decreases |cs|
  {
    if cs == [] then (s, Pass)
    else
      var (s', o) := WriteOne(s, cs[0], io);
      if o.Fail? then (s', o) else WriteAll(s', cs[1..], io)
  }

  /** Every object already present keeps its bytes, whatever happens. */
  lemma {:induction false} WriteAllKeepsObjects(s: StoreState, cs: seq<Chunk>, io: IoPlan)
    ensures forall h :: h in s.objects ==>
      h in WriteAll(s, cs, io).0.objects && WriteAll(s, cs, io).0.objects[h] == s.objects[h]
    decreases |cs|
  {
    if cs != [] {
      WriteAllKeepsObjects(WriteOne(s, cs[0], io).0, cs[1..], io);
    }
  }

  /** After a successful batch every input hash has an object. */
  lemma {:induction false} WriteAllStoresAll(s: StoreState, cs: seq<Chunk>, io: IoPlan)
    requires WriteAll(s, cs, io).1.Pass?
    ensures forall i :: 0 <= i < |cs| ==> cs[i].hash in WriteAll(s, cs, io).0.objects
    decreases |cs|
  {
    if cs != [] {
      var s1 := WriteOne(s, cs[0], io).0;
      WriteAllStoresAll(s1, cs[1..], io);
      WriteAllKeepsObjects(s1, cs[1..], io);
      forall i | 0 <= i < |cs| ensures cs[i].hash in WriteAll(s, cs, io).0.objects {
        if i > 0 {
          assert cs[i] == cs[1..][i - 1];
        }
      }
    }
  }

  /** The index of the first chunk named h, or |cs| when there is none. */
  function FirstWith(cs: seq<Chunk>, h: Hash): (i: nat)
    ensures i <= |cs|
    ensures i < |cs| ==> cs[i].hash == h
    ensures forall j :: 0 <= j < i ==> cs[j].hash != h
  {
    if cs == [] then 0 else if cs[0].hash == h then 0 else 1 + FirstWith(cs[1..], h)
  }

  /** A new object holds the ciphertext of the first chunk of the batch carrying its hash. */
  lemma {:induction false} WriteAllNewObjects(s: StoreState, cs: seq<Chunk>, io: IoPlan, h: Hash)
    requires h in WriteAll(s, cs, io).0.objects && h !in s.objects
    ensures FirstWith(cs, h) < |cs|
    ensures WriteAll(s, cs, io).0.objects[h] == cs[FirstWith(cs, h)].ciphertext
    decreases |cs|
  {
    var s1 := WriteOne(s, cs[0], io).0;
    if cs[0].hash == h {
      WriteAllKeepsObjects(s1, cs[1..], io);
    } else {
      WriteAllNewObjects(s1, cs[1..], io, h);
    }
  }

  /** Idempotence: replaying a batch that succeeded changes nothing and does no I/O at all. */
  lemma {:induction false} WriteAllIdempotent(s: StoreState, cs: seq<Chunk>, io: IoPlan, io': IoPlan)
    requires WriteAll(s, cs, io).1.Pass?
    ensures WriteAll(WriteAll(s, cs, io).0, cs, io') == (WriteAll(s, cs, io).0, Pass)
  {
    var s' := WriteAll(s, cs, io).0;
    WriteAllStoresAll(s, cs, io);
    AllPresentIsNoOp(s', cs, io');
  }

  lemma {:induction false} AllPresentIsNoOp(s: StoreState, cs: seq<Chunk>, io: IoPlan)
    requires forall i :: 0 <= i < |cs| ==> cs[i].hash in s.objects
    ensures WriteAll(s, cs, io) == (s, Pass)
    decreases |cs|
  {
    if cs != [] {
      AllPresentIsNoOp(s, cs[1..], io);
    }
  }

  lemma {:induction false} WriteAllAppend(s: StoreState, a: seq<Chunk>, b: seq<Chunk>, io: IoPlan)
    ensures WriteAll(s, a + b, io)
      == if WriteAll(s, a, io).1.Pass? then WriteAll(WriteAll(s, a, io).0, b, io) else WriteAll(s, a, io)
    decreases |a|
  {
    if a == [] {
      assert a + b == b;
    } else {
      assert (a + b)[0] == a[0];
      assert (a + b)[1..] == a[1..] + b;
      WriteAllAppend(WriteOne(s, a[0], io).0, a[1..], b, io);
    }
  }

  /**
   * No rollback: a failed batch is the successful batch of the chunks before
   * some position i, followed by the failing step for chunk i; nothing after
   * chunk i is attempted.
   */
  lemma {:induction false} WriteAllFailure(s: StoreState, cs: seq<Chunk>, io: IoPlan) returns (i: nat)
    requires WriteAll(s, cs, io).1.Fail?
    ensures i < |cs|
    ensures WriteAll(s, cs[..i], io).1.Pass?
    ensures WriteOne(WriteAll(s, cs[..i], io).0, cs[i], io) == WriteAll(s, cs, io)
    decreases |cs|
  {
    var (s1, o) := WriteOne(s, cs[0], io);
    if o.Fail? {
      i := 0;
      assert cs[..0] == [];
    } else {
      var i' := WriteAllFailure(s1, cs[1..], io);
      i := i' + 1;
      assert cs[..i] == [cs[0]] + cs[1..][..i'];
      assert cs[..i][1..] == cs[1..][..i'];
      assert cs[i] == cs[1..][i'];
    }
  }

  /** The hashes of a batch that get written: first occurrences of hashes not already stored. */
  function NewHashes(present: set<Hash>, cs: seq<Chunk>): (hs: seq<Hash>)
    ensures forall i :: 0 <= i < |hs| ==> hs[i] !in present
    ensures forall i, j :: 0 <= i < j < |hs| ==> hs[i] != hs[j]
    decreases |cs|
  {
    if cs == [] then []
    else if cs[0].hash in present then NewHashes(present, cs[1..])
    else [cs[0].hash] + NewHashes(present + {cs[0].hash}, cs[1..])
  }

  function CommitLines(hs: seq<Hash>): string
  {
    if hs == [] then [] else CommitLine(hs[0]) + CommitLines(hs[1..])
  }

  /** An I/O plan under which nothing fails and every log handle opens. */
  ghost predicate NoFaults(io: IoPlan)
  {
    forall h :: !io.tempWriteFails(h) && !io.renameFails(h) && io.logIo(h) == LogIo(true, NoFault, false)
  }

  /**
   * With no I/O failure a batch succeeds, and the log grows by exactly one
   * `PUT` line per hash that was not yet stored, in batch order: a hash
   * repeated within the batch is stored and logged once.
   */
  lemma {:induction false} WriteAllLogsNewHashes(s: StoreState, cs: seq<Chunk>, io: IoPlan, t: string)
    requires NoFaults(io) && s.log == LogText(t)
    ensures WriteAll(s, cs, io).1.Pass?
    ensures WriteAll(s, cs, io).0.log == LogText(t + CommitLines(NewHashes(s.objects.Keys, cs)))
    decreases |cs|
  {
    if cs == [] {
      assert t + CommitLines([]) == t;
    } else {
      var h := cs[0].hash;
      var s1 := WriteOne(s, cs[0], io).0;
      if h in s.objects {
        WriteAllLogsNewHashes(s1, cs[1..], io, t);
      } else {
        assert s1.objects.Keys == s.objects.Keys + {h};
        WriteAllLogsNewHashes(s1, cs[1..], io, t + CommitLine(h));
        var rest := NewHashes(s.objects.Keys + {h}, cs[1..]);
        assert NewHashes(s.objects.Keys, cs) == [h] + rest;
        assert CommitLines([h] + rest) == CommitLine(h) + CommitLines(rest);
        assert t + CommitLine(h) + CommitLines(rest) == t + (CommitLine(h) + CommitLines(rest));
      }
    }
  }

  /**
   * The first batch on a store with no log: with no I/O failure it succeeds,
   * the first new hash creates the log with its line, and each later new hash
   * appends its own; a batch with nothing new leaves the log absent.
   */
  lemma {:induction false} WriteAllCreatesLog(s: StoreState, cs: seq<Chunk>, io: IoPlan)
    requires NoFaults(io) && s.log == NoLog
    ensures WriteAll(s, cs, io).1.Pass?
    ensures WriteAll(s, cs, io).0.log
      == if NewHashes(s.objects.Keys, cs) == [] then NoLog else LogText(CommitLines(NewHashes(s.objects.Keys, cs)))
    decreases |cs|
  {
    if cs != [] {
      var h := cs[0].hash;
      var s1 := WriteOne(s, cs[0], io).0;
      if h in s.objects {
        WriteAllCreatesLog(s1, cs[1..], io);
      } else {
        assert s1.log == LogText(CommitLine(h));
        assert s1.objects.Keys == s.objects.Keys + {h};
        WriteAllLogsNewHashes(s1, cs[1..], io, CommitLine(h));
        var rest := NewHashes(s.objects.Keys + {h}, cs[1..]);
        assert NewHashes(s.objects.Keys, cs) == [h] + rest;
        assert CommitLines([h] + rest) == CommitLine(h) + CommitLines(rest);
      }
    }
  }

  // ---------------------------------------------------------------- the audit

  function TokenEnd(s: string, sep: char): (k: nat)
    ensures k <= |s|
    ensures forall i :: 0 <= i < k ==> s[i] != sep
    ensures k < |s| ==> s[k] == sep
  {
    if s == [] || s[0] == sep then 0 else 1 + TokenEnd(s[1..], sep)
  }

  /** Swift's `split(separator:)`: the maximal separator-free pieces, empty ones omitted. */
  function Split(s: string, sep: char): (parts: seq<string>)
    decreases |s|
  {
    if s == [] then []
    else if s[0] == sep then Split(s[1..], sep)
    else [s[..TokenEnd(s, sep)]] + Split(s[TokenEnd(s, sep)..], sep)
  }

  lemma {:induction false} SplitPiecesAreTokens(s: string, sep: char)
    ensures forall i :: 0 <= i < |Split(s, sep)| ==> Split(s, sep)[i] != [] && sep !in Split(s, sep)[i]
    decreases |s|
  {
    if s != [] {
      if s[0] == sep {
        SplitPiecesAreTokens(s[1..], sep);
      } else {
        SplitPiecesAreTokens(s[TokenEnd(s, sep)..], sep);
      }
    }
  }

  lemma {:induction false} TokenEndAppend(a: string, b: string, sep: char)
    requires sep in a
    ensures TokenEnd(a + b, sep) == TokenEnd(a, sep)
  {
    if a[0] != sep {
      assert (a + b)[1..] == a[1..] + b;
      TokenEndAppend(a[1..], b, sep);
    }
  }

  lemma TokenEndWhole(t: string, sep: char)
    requires sep !in t
    ensures TokenEnd(t, sep) == |t|
  {
  }

  /** Text that ends with a separator splits independently of what follows it. */
  lemma {:induction false} SplitAppend(a: string, b: string, sep: char)
    requires a == [] || a[|a| - 1] == sep
    ensures Split(a + b, sep) == Split(a, sep) + Split(b, sep)
    decreases |a|
  {
    if a == [] {
      assert a + b == b;
    } else if a[0] == sep {
      assert (a + b)[1..] == a[1..] + b;
      SplitAppend(a[1..], b, sep);
    } else {
      TokenEndAppend(a, b, sep);
      var k := TokenEnd(a, sep);
      assert (a + b)[..k] == a[..k];
      assert (a + b)[k..] == a[k..] + b;
      SplitAppend(a[k..], b, sep);
    }
  }

  lemma SplitToken(t: string, sep: char)
    requires t != [] && sep !in t
    ensures Split(t, sep) == [t]
  {
    TokenEndWhole(t, sep);
    assert t[..|t|] == t;
  }

  /** The fields of a logged line; it names a hash when it has two or more and the first is `PUT`. */
  function LoggedHash(line: string): Option<Hash>
  {
    var parts := Split(line, ' ');
    if |parts| >= 2 && parts[0] == "PUT" then Some(parts[1]) else None
  }

  function Flag(line: string, objects: map<Hash, Bytes>): seq<Hash>
  {
    match LoggedHash(line)
    case Some(h) => if h in objects then [] else [h]
    case None => []
  }

  function MissingIn(lines: seq<string>, objects: map<Hash, Bytes>): seq<Hash>
  {
    if lines == [] then []
    else MissingIn(lines[..|lines| - 1], objects) + Flag(lines[|lines| - 1], objects)
  }

  /** What `repairIncompleteWrites()` reports: nothing for an absent or non-UTF-8 log. */
  function Missing(s: StoreState): seq<Hash>
  {
    match s.log
    case LogText(t) => MissingIn(Split(t, '\n'), s.objects)
    case _ => []
  }

  /** The audit reports exactly the hashes named by a `PUT` line whose object is absent. */
  lemma {:induction false} MissingInExactly(lines: seq<string>, objects: map<Hash, Bytes>, h: Hash)
    ensures h in MissingIn(lines, objects) <==>
      h !in objects && exists i :: 0 <= i < |lines| && LoggedHash(lines[i]) == Some(h)
    decreases |lines|
  {
    if lines != [] {
      var init := lines[..|lines| - 1];
      MissingInExactly(init, objects, h);
      if exists i :: 0 <= i < |lines| && LoggedHash(lines[i]) == Some(h) {
        var i :| 0 <= i < |lines| && LoggedHash(lines[i]) == Some(h);
        if i < |lines| - 1 {
          assert init[i] == lines[i];
        }
      }
      if exists i :: 0 <= i < |init| && LoggedHash(init[i]) == Some(h) {
        var i :| 0 <= i < |init| && LoggedHash(init[i]) == Some(h);
        assert lines[i] == init[i];
      }
    }
  }

  lemma {:induction false} MissingInAppend(a: seq<string>, b: seq<string>, objects: map<Hash, Bytes>)
    ensures MissingIn(a + b, objects) == MissingIn(a, objects) + MissingIn(b, objects)
    decreases |b|
  {
    if b == [] {
      assert a + b == a;
    } else {
      var b' := b[..|b| - 1];
      assert (a + b)[..|a + b| - 1] == a + b';
      assert (a + b)[|a + b| - 1] == b[|b| - 1];
      MissingInAppend(a, b', objects);
      assert MissingIn(a + b, objects) == MissingIn(a + b', objects) + Flag(b[|b| - 1], objects);
      assert MissingIn(b, objects) == MissingIn(b', objects) + Flag(b[|b| - 1], objects);
    }
  }

  /** A log line naming a present object never becomes missing when more objects are stored. */
  lemma {:induction false} MissingInGrow(lines: seq<string>, objects: map<Hash, Bytes>, more: map<Hash, Bytes>)
    requires MissingIn(lines, objects) == []
    requires objects.Keys <= more.Keys
    ensures MissingIn(lines, more) == []
    decreases |lines|
  {
    if lines != [] {
      MissingInGrow(lines[..|lines| - 1], objects, more);
    }
  }

  lemma {:induction false} TokenEndPrefix(t: string, rest: string, sep: char)
    requires sep !in t
    requires rest == [] || rest[0] == sep
    ensures TokenEnd(t + rest, sep) == |t|
  {
    if t != [] {
      assert (t + rest)[1..] == t[1..] + rest;
      TokenEndPrefix(t[1..], rest, sep);
    }
  }

  /** Two tokens joined by one separator split back into the two. */
  lemma SplitPair(a: string, b: string, sep: char)
    requires a != [] && sep !in a
    ensures Split(a + [sep] + b, sep) == [a] + Split(b, sep)
  {
    var s := a + [sep] + b;
    assert s == a + ([sep] + b);
    TokenEndPrefix(a, [sep] + b, sep);
    assert s[..|a|] == a;
    assert s[|a|..] == [sep] + b;
    assert s[|a|..][1..] == b;
  }

  lemma CommitLineParses(h: Hash)
    requires WellFormedHash(h)
    ensures Split(CommitLine(h), '\n') == ["PUT " + h]
    ensures LoggedHash("PUT " + h) == Some(h)
  {
    WellFormedHashSeparators(h);
    var body := "PUT " + h;
    assert CommitLine(h) == body + ['\n'] + [];
    SplitPair(body, [], '\n');
    assert body == "PUT" + [' '] + h;
    SplitPair("PUT", h, ' ');
    SplitToken(h, ' ');
  }

  /**
   * A log the writer keeps: plain text that ends at a line boundary and names
   * no missing object. An absent or non-UTF-8 log is trivially consistent.
   */
  ghost predicate Consistent(s: StoreState)
  {
    match s.log
    case LogText(t) => PlainText(t) && (t == [] || t[|t| - 1] == '\n') && Missing(s) == []
    case _ => true
  }

  /** A commit line for a stored object ends at a line boundary and names nothing missing. */
  lemma CommitLineClean(h: Hash, objects: map<Hash, Bytes>)
    requires WellFormedHash(h) && h in objects
    ensures PlainText(CommitLine(h))
    ensures CommitLine(h)[|CommitLine(h)| - 1] == '\n'
    ensures MissingIn(Split(CommitLine(h), '\n'), objects) == []
  {
    WellFormedHashSeparators(h);
    CommitLineParses(h);
    assert ["PUT " + h][..0] == [];
  }

  lemma PlainTextAppend(a: string, b: string)
    requires PlainText(a) && PlainText(b)
    ensures PlainText(a + b)
  {
    forall i | 0 <= i < |a + b| ensures (a + b)[i] == '\n' || ' ' <= (a + b)[i] <= '~' {
      if i < |a| { assert (a + b)[i] == a[i]; } else { assert (a + b)[i] == b[i - |a|]; }
    }
  }

  /** Appending a clean, complete line to a clean log keeps it clean. */
  lemma AppendCleanLine(t: string, line: string, objects: map<Hash, Bytes>)
    requires PlainText(t) && PlainText(line)
    requires t == [] || t[|t| - 1] == '\n'
    requires MissingIn(Split(t, '\n'), objects) == []
    requires line != [] && line[|line| - 1] == '\n'
    requires MissingIn(Split(line, '\n'), objects) == []
    ensures PlainText(t + line)
    ensures (t + line)[|t + line| - 1] == '\n'
    ensures MissingIn(Split(t + line, '\n'), objects) == []
  {
    PlainTextAppend(t, line);
    SplitAppend(t, line, '\n');
    MissingInAppend(Split(t, '\n'), Split(line, '\n'), objects);
  }

  /** The log after an append attempt: unchanged, replaced by the line, or extended by it. */
  lemma AppendLineCases(log: LogFile, line: string, io: LogIo)
    ensures var log' := AppendLine(log, line, io).0;
      log' == log || log' == LogText(line) || (log.LogText? && log' == LogText(log.text + line))
  {
  }

  lemma AppendCommitKeepsConsistent(s: StoreState, h: Hash, io: LogIo)
    requires Consistent(s) && WellFormedHash(h) && h in s.objects
    ensures Consistent(s.(log := AppendLine(s.log, CommitLine(h), io).0))
  {
    var line := CommitLine(h);
    var log' := AppendLine(s.log, line, io).0;
    AppendLineCases(s.log, line, io);
    CommitLineClean(h, s.objects);
    if log' != s.log && log' != LogText(line) {
      AppendCleanLine(s.log.text, line, s.objects);
      assert log' == LogText(s.log.text + line);
    }
  }

  lemma WriteOneKeepsConsistent(s: StoreState, c: Chunk, io: IoPlan)
    requires Consistent(s) && WellFormedHash(c.hash)
    ensures Consistent(WriteOne(s, c, io).0)
  {
    var h := c.hash;
    if h !in s.objects && !io.tempWriteFails(h) && !io.renameFails(h) {
      var s1 := StoreState(s.objects[h := c.ciphertext], s.temps - {h}, s.log);
      if s.log.LogText? {
        MissingInGrow(Split(s.log.text, '\n'), s.objects, s1.objects);
      }
      assert Consistent(s1);
      AppendCommitKeepsConsistent(s1, h, io.logIo(h));
      assert WriteOne(s, c, io).0 == s1.(log := AppendLine(s1.log, CommitLine(h), io.logIo(h)).0);
    }
  }

  /**
   * Whatever fails and wherever a batch stops, a store whose audit was clean
   * stays clean: a `PUT` line is only ever written after its object exists,
   * and objects are never removed.
   */
  lemma {:induction false} WriteAllKeepsConsistent(s: StoreState, cs: seq<Chunk>, io: IoPlan)
    requires Consistent(s)
    requires forall i :: 0 <= i < |cs| ==> WellFormedHash(cs[i].hash)
    ensures Consistent(WriteAll(s, cs, io).0)
    decreases |cs|
  {
    if cs != [] {
      WriteOneKeepsConsistent(s, cs[0], io);
      WriteAllKeepsConsistent(WriteOne(s, cs[0], io).0, cs[1..], io);
    }
  }

  // ---------------------------------------------------------------- the writer

  class ObjectWriter {
    const root: string
    const commitLogPath: string
    var objects: map<Hash, Bytes>
    var temps: map<Hash, Bytes>
    var log: LogFile

    function State(): StoreState
      reads this
    {
      StoreState(objects, temps, log)
    }

    constructor(root: string, disk: StoreState)
      ensures this.root == root && commitLogPath == root + "/commit.log"
      ensures State() == disk
    {
      this.root := root;
      this.commitLogPath := root + "/commit.log";
      this.objects := disk.objects;
      this.temps := disk.temps;
      this.log := disk.log;
    }

    /**
     * `init(root:)`: fixes the commit log at `root/commit.log` and creates
     * `root/objects`; a failure to create it fails construction.
     */
    static method Open(root: string, disk: StoreState, createFails: bool) returns (r: Result<ObjectWriter, IoError>)
      ensures r.Failure? <==> createFails
      ensures r.Failure? ==> r.error == CreateDirectoryFailed(root + "/objects")
      ensures r.Success? ==>
                fresh(r.value) && r.value.root == root
                && r.value.commitLogPath == root + "/commit.log" && r.value.State() == disk
    {
      if createFails {
        return Failure(CreateDirectoryFailed(root + "/objects"));
      }
      var w := new ObjectWriter(root, disk);
      return Success(w);
    }

    /** `appendCommitLine(_:)`. */
    method AppendCommitLine(line: string, io: LogIo) returns (o: Outcome<IoError>)
      modifies this`log
      ensures (log, o) == AppendLine(old(log), line, io)
    {
      if !log.NoLog? {
        if io.handleOpens {
          match io.fault {
            case SeekOrWriteThrows =>
              return Fail(LogAppendFailed);
            case CloseThrows =>
              log := Appended(log, line);
              return Fail(LogAppendFailed);
            case NoFault =>
              log := Appended(log, line);
              return Pass;
          }
        }
      }
      if io.rewriteFails {
        return Fail(LogRewriteFailed);
      }
      log := LogText(line);
      return Pass;
    }

    /** `writeChunks(_:)`. */
    method WriteChunks(chunks: seq<Chunk>, io: IoPlan) returns (o: Outcome<IoError>)
      modifies this
      ensures (State(), o) == WriteAll(old(State()), chunks, io)
    {
      for i := 0 to |chunks|
        invariant WriteAll(old(State()), chunks, io) == WriteAll(State(), chunks[i..], io)
      {
        assert chunks[i..][0] == chunks[i] && chunks[i..][1..] == chunks[i + 1..];
        ghost var before := State();
        var hash, encrypted := chunks[i].hash, chunks[i].ciphertext;
        if hash in objects {
          continue;
        }
        if io.tempWriteFails(hash) {
          return Fail(WriteFailed(TempPath(hash)));
        }
        temps := temps[hash := encrypted];
        if io.renameFails(hash) {
          return Fail(MoveFailed(TempPath(hash)));
        }
        objects := objects[hash := encrypted];
        temps := temps - {hash};
        assert temps == before.temps - {hash};
        o := AppendCommitLine(CommitLine(hash), io.logIo(hash));
        assert (State(), o) == WriteOne(before, chunks[i], io);
        if o.Fail? {
          return;
        }
      }
      return Pass;
    }

    /** `repairIncompleteWrites()`, returning the missing hashes it would print. */
    method RepairIncompleteWrites() returns (missing: seq<Hash>)
      ensures missing == Missing(State())
    {
      if !log.LogText? {
        return [];
      }
      var lines := Split(log.text, '\n');
      missing := [];
      for i := 0 to |lines|
        invariant missing == MissingIn(lines[..i], objects)
      {
        assert lines[..i + 1][..i] == lines[..i];
        var parts := Split(lines[i], ' ');
        if |parts| >= 2 && parts[0] == "PUT" {
          var hash := parts[1];
          if hash !in objects {
            missing := missing + [hash];
          }
        }
      }
      assert lines[..|lines|] == lines;
    }
  }
}
