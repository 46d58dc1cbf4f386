/**
 * DeletedContentScanner.swift: a heuristic pass over a file's raw bytes that
 * collects the runs of printable ASCII long enough to be leftover text, minus
 * those that look like SQL schema keywords or contain no letter or digit.
 * Reading the file is left to the caller; the scan works on its bytes.
 */
module Scanner {
  import opened Wrappers
  import opened Crypto

  datatype ScannedMessage = ScannedMessage(content: string, offset: int, context: string)

  /** Printable ASCII, 0x20 through 0x7E. */
  predicate IsPrintable(b: byte)
  {
    0x20 <= b <= 0x7E
  }

  function AsciiText(bs: seq<byte>): (s: string)
    ensures |s| == |bs|
  {
    seq(|bs|, i requires 0 <= i < |bs| => bs[i] as char)
  }

  /** `String(bytes:encoding: .ascii)`: fails on any byte above 0x7F. */
  function AsciiString(bs: seq<byte>): Option<string>
  {
    if forall i :: 0 <= i < |bs| ==> bs[i] < 0x80 then Some(AsciiText(bs)) else None
  }

  /** A printable run always decodes as ASCII. */
  lemma PrintableDecodes(bs: seq<byte>)
    requires forall i :: 0 <= i < |bs| ==> IsPrintable(bs[i])
    ensures AsciiString(bs) == Some(AsciiText(bs))
  {
  }

  // ---------------------------------------------------------------- isNoise

  const NoiseWords: seq<string> :=
    ["CREATE", "TABLE", "INSERT", "INTO", "VALUES", "index", "trigger", "view",
     "integer", "primary", "key", "autoincrement"]

  function LowerChar(c: char): char
  {
    if 'A' <= c <= 'Z' then (c as int + 32) as char else c
  }

  function Lower(s: string): (r: string)
    ensures |r| == |s|
  {
    seq(|s|, i requires 0 <= i < |s| => LowerChar(s[i]))
  }

  /** `localizedCaseInsensitiveContains`, with ASCII case folding. */
  function ContainsFolded(s: string, w: string): bool
    decreases |s|
  {
    |w| <= |s| && (Lower(s[..|w|]) == Lower(w) || (s != [] && ContainsFolded(s[1..], w)))
  }

  /** w occurs at position i of s, ignoring letter case. */
  predicate OccursAt(s: string, w: string, i: int)
  {
    0 <= i && i + |w| <= |s| && Lower(s[i..i + |w|]) == Lower(w)
  }

  /** Case-insensitive containment is an occurrence at some position. */
  lemma {:induction false} ContainsFoldedExactly(s: string, w: string)
    ensures ContainsFolded(s, w) <==> exists i :: OccursAt(s, w, i)
    decreases |s|
  {
    if |w| <= |s| {
      assert s[..|w|] == s[0..0 + |w|];
      if Lower(s[..|w|]) == Lower(w) {
        assert OccursAt(s, w, 0);
      }
      if s != [] {
        ContainsFoldedExactly(s[1..], w);
        if exists i :: OccursAt(s[1..], w, i) {
          var i :| OccursAt(s[1..], w, i);
          assert s[i + 1..i + 1 + |w|] == s[1..][i..i + |w|];
          assert OccursAt(s, w, i + 1);
        }
        if exists i :: OccursAt(s, w, i) {
          var i :| OccursAt(s, w, i);
          if i > 0 {
            assert s[1..][i - 1..i - 1 + |w|] == s[i..i + |w|];
            assert OccursAt(s[1..], w, i - 1);
          }
        }
      }
    }
  }

  predicate IsAlphanumeric(c: char)
  {
    'a' <= c <= 'z' || 'A' <= c <= 'Z' || '0' <= c <= '9'
  }

  function HasAlphanumeric(s: string): bool
  {
    exists i :: 0 <= i < |s| && IsAlphanumeric(s[i])
  }

  /** `noise.contains(where:)`: some word of the list occurs in s, ignoring case. */
  function ContainsAny(s: string, words: seq<string>): bool
  {
    words != [] && (ContainsFolded(s, words[0]) || ContainsAny(s, words[1..]))
  }

  lemma {:induction false} ContainsAnyExactly(s: string, words: seq<string>)
    ensures ContainsAny(s, words) <==> exists k :: 0 <= k < |words| && ContainsFolded(s, words[k])
  {
    if words != [] {
      ContainsAnyExactly(s, words[1..]);
      if exists k :: 0 <= k < |words| && ContainsFolded(s, words[k]) {
        var k :| 0 <= k < |words| && ContainsFolded(s, words[k]);
        if k > 0 {
          assert words[1..][k - 1] == words[k];
        }
      }
      if ContainsAny(s, words[1..]) {
        var k :| 0 <= k < |words[1..]| && ContainsFolded(s, words[1..][k]);
        assert words[k + 1] == words[1..][k];
      }
    }
  }

  /** Some schema keyword occurs in s, ignoring case, exactly when `ContainsAny` says so. */
  lemma KeywordOccurs(s: string)
    ensures ContainsAny(s, NoiseWords) <==>
      exists k, i :: 0 <= k < |NoiseWords| && OccursAt(s, NoiseWords[k], i)
  {
    ContainsAnyExactly(s, NoiseWords);
    forall k | 0 <= k < |NoiseWords|
      ensures ContainsFolded(s, NoiseWords[k]) <==> exists i :: OccursAt(s, NoiseWords[k], i)
    {
      ContainsFoldedExactly(s, NoiseWords[k]);
    }
  }

  /** `isNoise(_:)`: contains a schema keyword in any case, or has no letter or digit. */
  function IsNoise(s: string): bool
  {
    ContainsAny(s, NoiseWords) || !HasAlphanumeric(s)
  }

  /**
   * Text is noise exactly when some keyword occurs in it at some position,
   * ignoring case, or when none of its characters is a letter or a digit.
   */
  lemma IsNoiseExactly(s: string)
    ensures IsNoise(s) <==>
      (exists k, i :: 0 <= k < |NoiseWords| && OccursAt(s, NoiseWords[k], i))
      || (forall i :: 0 <= i < |s| ==> !IsAlphanumeric(s[i]))
  {
    KeywordOccurs(s);
  }

  /** The keyword test is a substring test: an ordinary word containing a keyword is filtered. */
  lemma NoiseInsideWord()
    ensures IsNoise("monkey")
  {
    assert Lower("monkey"[3..6]) == Lower(NoiseWords[10]);
    assert OccursAt("monkey", NoiseWords[10], 3);
    ContainsFoldedExactly("monkey", NoiseWords[10]);
    ContainsAnyExactly("monkey", NoiseWords);
  }

  /** Keywords match in any letter case. */
  lemma NoiseAnyCase()
    ensures IsNoise("create")
  {
    assert Lower("create"[0..6]) == Lower(NoiseWords[0]);
    assert OccursAt("create", NoiseWords[0], 0);
    ContainsFoldedExactly("create", NoiseWords[0]);
    ContainsAnyExactly("create", NoiseWords);
  }

  /** Text with no letter or digit is noise, the empty text included. */
  lemma NoisePunctuation()
    ensures IsNoise("!?-- ..")
    ensures IsNoise("")
  {
    assert !HasAlphanumeric("!?-- ..");
  }

  /** Every keyword starts with a letter. */
  lemma KeywordsStartWithLetter(k: int)
    requires 0 <= k < |NoiseWords|
    ensures NoiseWords[k] != [] && 'a' <= LowerChar(NoiseWords[k][0]) <= 'z'
  {
  }

  lemma DigitsDoNotStartKeyword(s: string, w: string, i: int)
    requires forall j :: 0 <= j < |s| ==> '0' <= s[j] <= '9'
    requires w != [] && 'a' <= LowerChar(w[0]) <= 'z'
    ensures !OccursAt(s, w, i)
  {
    if 0 <= i && i + |w| <= |s| {
      assert Lower(s[i..i + |w|])[0] == LowerChar(s[i]);
      assert Lower(w)[0] == LowerChar(w[0]);
    }
  }

  /** A run of digits (a number, a code) is never noise. */
  lemma DigitsKept(s: string)
    requires s != [] && forall i :: 0 <= i < |s| ==> '0' <= s[i] <= '9'
    ensures !IsNoise(s)
  {
    assert IsAlphanumeric(s[0]);
    ContainsAnyExactly(s, NoiseWords);
    forall k | 0 <= k < |NoiseWords| ensures !ContainsFolded(s, NoiseWords[k]) {
      ContainsFoldedExactly(s, NoiseWords[k]);
      KeywordsStartWithLetter(k);
      forall i ensures !OccursAt(s, NoiseWords[k], i) {
        DigitsDoNotStartKeyword(s, NoiseWords[k], i);
      }
    }
  }

  // ---------------------------------------------------------------- scanFile

  /** Where the printable run ending just before position e starts. */
  function RunStart(bytes: seq<byte>, e: int): (o: int)
    requires 0 <= e <= |bytes|
    ensures 0 <= o <= e
  {
    if e == 0 || !IsPrintable(bytes[e - 1]) then e else RunStart(bytes, e - 1)
  }

  /** The run before position e is printable throughout, and starts the input or follows a non-printable byte. */
  lemma {:induction false} RunStartMaximal(bytes: seq<byte>, e: int)
    requires 0 <= e <= |bytes|
    ensures forall j :: RunStart(bytes, e) <= j < e ==> IsPrintable(bytes[j])
    ensures RunStart(bytes, e) == 0 || !IsPrintable(bytes[RunStart(bytes, e) - 1])
  {
    if e > 0 && IsPrintable(bytes[e - 1]) {
      RunStartMaximal(bytes, e - 1);
    }
  }

  /** The message the non-printable byte at position e produces for the run before it, if any. */
  function MessageAt(bytes: seq<byte>, minLength: int, e: int): seq<ScannedMessage>
    requires 0 <= e < |bytes|
  {
    var o := RunStart(bytes, e);
    var s := AsciiString(bytes[o..e]);
    if e - o >= minLength && s.Some? && !IsNoise(s.value) then [ScannedMessage(s.value, o, "ASCII")] else []
  }

  /** The messages produced by the first n bytes: one per terminating byte whose run qualifies. */
  function Reported(bytes: seq<byte>, minLength: int, n: int): seq<ScannedMessage>
    requires 0 <= n <= |bytes|
  {
    if n == 0 then []
    else Reported(bytes, minLength, n - 1) + (if IsPrintable(bytes[n - 1]) then [] else MessageAt(bytes, minLength, n - 1))
  }

  /**
   * A reported message: a maximal run of printable bytes, starting the file or
   * following a non-printable byte, ended by a non-printable byte, at least
   * minLength long, not noise, and carrying exactly the run's text.
   */
  predicate Reportable(bytes: seq<byte>, minLength: int, m: ScannedMessage)
  {
    var o, e := m.offset, m.offset + |m.content|;
    0 <= o && e < |bytes|
    && (forall j :: o <= j < e ==> IsPrintable(bytes[j]))
    && !IsPrintable(bytes[e])
    && (o == 0 || !IsPrintable(bytes[o - 1]))
    && |m.content| >= minLength
    && m.content == AsciiText(bytes[o..e])
    && !IsNoise(m.content)
    && m.context == "ASCII"
  }

  lemma MessageAtShape(bytes: seq<byte>, minLength: int, e: int)
    requires 0 <= e < |bytes|
    ensures var o := RunStart(bytes, e);
      MessageAt(bytes, minLength, e)
        == if e - o >= minLength && !IsNoise(AsciiText(bytes[o..e]))
           then [ScannedMessage(AsciiText(bytes[o..e]), o, "ASCII")] else []
  {
    var o := RunStart(bytes, e);
    RunStartMaximal(bytes, e);
    PrintableDecodes(bytes[o..e]);
  }

  lemma RunReportable(bytes: seq<byte>, minLength: int, o: int, e: int)
    requires 0 <= o <= e < |bytes|
    requires forall j :: o <= j < e ==> IsPrintable(bytes[j])
    requires !IsPrintable(bytes[e]) && (o == 0 || !IsPrintable(bytes[o - 1]))
    requires e - o >= minLength && !IsNoise(AsciiText(bytes[o..e]))
    ensures Reportable(bytes, minLength, ScannedMessage(AsciiText(bytes[o..e]), o, "ASCII"))
  {
  }

  /** The message a terminating byte produces, if any, is the reportable run just before it. */
  lemma MessageAtFacts(bytes: seq<byte>, minLength: int, e: int)
    requires 0 <= e < |bytes| && !IsPrintable(bytes[e])
    ensures MessageAt(bytes, minLength, e) == [] ||
      var o := RunStart(bytes, e);
      var m := ScannedMessage(AsciiText(bytes[o..e]), o, "ASCII");
      MessageAt(bytes, minLength, e) == [m] && Reportable(bytes, minLength, m)
  {
    var o := RunStart(bytes, e);
    if e - o >= minLength && !IsNoise(AsciiText(bytes[o..e])) {
      RunStartMaximal(bytes, e);
      MessageAtRun(bytes, minLength, o, e);
      RunReportable(bytes, minLength, o, e);
    } else {
      MessageAtShape(bytes, minLength, e);
    }
  }

  /** Every message is reportable, for a run ending inside the bytes scanned so far. */
  lemma {:induction false} ReportedSound(bytes: seq<byte>, minLength: int, n: int)
    requires 0 <= n <= |bytes|
    ensures forall k :: 0 <= k < |Reported(bytes, minLength, n)| ==> Reportable(bytes, minLength, Reported(bytes, minLength, n)[k])
    ensures forall k :: 0 <= k < |Reported(bytes, minLength, n)| ==>
      Reported(bytes, minLength, n)[k].offset + |Reported(bytes, minLength, n)[k].content| < n
  {
    if n > 0 {
      ReportedSound(bytes, minLength, n - 1);
      if !IsPrintable(bytes[n - 1]) {
        MessageAtFacts(bytes, minLength, n - 1);
      }
    }
  }

  /** Messages come in input order: each starts after the previous one's run has ended. */
  lemma {:induction false} ReportedOrdered(bytes: seq<byte>, minLength: int, n: int)
    requires 0 <= n <= |bytes|
    ensures forall k, l :: 0 <= k < l < |Reported(bytes, minLength, n)| ==>
      Reported(bytes, minLength, n)[k].offset + |Reported(bytes, minLength, n)[k].content| < Reported(bytes, minLength, n)[l].offset
  {
    if n > 0 {
      ReportedOrdered(bytes, minLength, n - 1);
      var e := n - 1;
      var prev := Reported(bytes, minLength, e);
      if !IsPrintable(bytes[e]) && MessageAt(bytes, minLength, e) != [] {
        ReportedSound(bytes, minLength, e);
        MessageAtFacts(bytes, minLength, e);
        RunStartMaximal(bytes, e);
        var o := RunStart(bytes, e);
        forall k | 0 <= k < |prev| ensures prev[k].offset + |prev[k].content| < o {
          assert !IsPrintable(bytes[prev[k].offset + |prev[k].content|]);
        }
      }
    }
  }

  /** A run start is pinned down by the run's end: at most one maximal run ends at each position. */
  lemma RunStartUnique(bytes: seq<byte>, o: int, e: int)
    requires 0 <= o <= e <= |bytes|
    requires forall j :: o <= j < e ==> IsPrintable(bytes[j])
    requires o == 0 || !IsPrintable(bytes[o - 1])
    ensures RunStart(bytes, e) == o
  {
    RunStartMaximal(bytes, e);
  }

  /** Scanning further only appends messages. */
  lemma {:induction false} ReportedPrefix(bytes: seq<byte>, minLength: int, a: int, b: int)
    requires 0 <= a <= b <= |bytes|
    ensures |Reported(bytes, minLength, a)| <= |Reported(bytes, minLength, b)|
    ensures Reported(bytes, minLength, b)[..|Reported(bytes, minLength, a)|] == Reported(bytes, minLength, a)
    decreases b
  {
    if a < b {
      ReportedPrefix(bytes, minLength, a, b - 1);
      var r := Reported(bytes, minLength, b - 1);
      assert Reported(bytes, minLength, b)[..|r|] == r;
    }
  }

  /** The byte ending a maximal, long enough, meaningful run reports exactly that run. */
  lemma MessageAtRun(bytes: seq<byte>, minLength: int, o: int, e: int)
    requires 0 <= o <= e < |bytes|
    requires forall j :: o <= j < e ==> IsPrintable(bytes[j])
    requires o == 0 || !IsPrintable(bytes[o - 1])
    requires e - o >= minLength && !IsNoise(AsciiText(bytes[o..e]))
    ensures MessageAt(bytes, minLength, e) == [ScannedMessage(AsciiText(bytes[o..e]), o, "ASCII")]
  {
    RunStartUnique(bytes, o, e);
    PrintableDecodes(bytes[o..e]);
  }

  /** A reportable message is the one produced by the byte that ends its run. */
  lemma ReportedAtEnd(bytes: seq<byte>, minLength: int, m: ScannedMessage)
    requires Reportable(bytes, minLength, m)
    ensures var e := m.offset + |m.content|;
      Reported(bytes, minLength, e + 1) == Reported(bytes, minLength, e) + [m]
  {
    var o, e := m.offset, m.offset + |m.content|;
    MessageAtRun(bytes, minLength, o, e);
    assert m == ScannedMessage(AsciiText(bytes[o..e]), o, "ASCII");
  }

  /** Every reportable run ended within the first n bytes is reported. */
  lemma ReportedComplete(bytes: seq<byte>, minLength: int, n: int, m: ScannedMessage)
    requires 0 <= n <= |bytes|
    requires Reportable(bytes, minLength, m) && m.offset + |m.content| < n
    ensures exists k :: 0 <= k < |Reported(bytes, minLength, n)| && Reported(bytes, minLength, n)[k] == m
  {
    ReportedAtEnd(bytes, minLength, m);
    ReportedStays(bytes, minLength, m.offset + |m.content|, n, m);
  }

  /** A message reported by the byte at position e stays reported however far the scan goes. */
  lemma ReportedStays(bytes: seq<byte>, minLength: int, e: int, n: int, m: ScannedMessage)
    requires 0 <= e < n <= |bytes|
    requires Reported(bytes, minLength, e + 1) == Reported(bytes, minLength, e) + [m]
    ensures exists k :: 0 <= k < |Reported(bytes, minLength, n)| && Reported(bytes, minLength, n)[k] == m
  {
    ReportedPrefix(bytes, minLength, e + 1, n);
    OccursAfterPrefix(Reported(bytes, minLength, e), m, Reported(bytes, minLength, n));
  }

  /** A sequence that starts with p + [m] contains m. */
  lemma OccursAfterPrefix<T>(p: seq<T>, m: T, r: seq<T>)
    requires |p| + 1 <= |r| && r[..|p| + 1] == p + [m]
    ensures exists k :: 0 <= k < |r| && r[k] == m
  {
    assert r[|p|] == (p + [m])[|p|];
  }

  /** A printable run that reaches the end of the input is never reported: only a non-printable byte flushes a run. */
  lemma {:induction false} TrailingRunDropped(bytes: seq<byte>, tail: seq<byte>, minLength: int, n: int)
    requires forall j :: 0 <= j < |tail| ==> IsPrintable(tail[j])
    requires |bytes| <= n <= |bytes + tail|
    ensures Reported(bytes + tail, minLength, n) == Reported(bytes, minLength, |bytes|)
  {
    if n > |bytes| {
      assert (bytes + tail)[n - 1] == tail[n - 1 - |bytes|];
      TrailingRunDropped(bytes, tail, minLength, n - 1);
    } else {
      PrefixReported(bytes, tail, minLength, n);
    }
  }

  lemma {:induction false} PrefixReported(bytes: seq<byte>, tail: seq<byte>, minLength: int, n: int)
    requires 0 <= n <= |bytes|
    ensures Reported(bytes + tail, minLength, n) == Reported(bytes, minLength, n)
  {
    if n > 0 {
      PrefixReported(bytes, tail, minLength, n - 1);
      var e := n - 1;
      if !IsPrintable(bytes[e]) {
        RunStartPrefix(bytes, tail, e);
        var o := RunStart(bytes, e);
        assert (bytes + tail)[o..e] == bytes[o..e];
      }
    }
  }

  lemma {:induction false} RunStartPrefix(bytes: seq<byte>, tail: seq<byte>, e: int)
    requires 0 <= e <= |bytes|
    ensures RunStart(bytes + tail, e) == RunStart(bytes, e)
  {
    if e > 0 {
      RunStartPrefix(bytes, tail, e - 1);
    }
  }

  /** A printable byte extends the current run and reports nothing. */
  lemma ExtendRun(bytes: seq<byte>, minLength: int, i: int, current: seq<byte>)
    requires 0 <= i < |bytes| && IsPrintable(bytes[i])
    requires current == bytes[RunStart(bytes, i)..i]
    ensures current + [bytes[i]] == bytes[RunStart(bytes, i + 1)..i + 1]
    ensures current == [] ==> RunStart(bytes, i + 1) == i
    ensures current != [] ==> RunStart(bytes, i + 1) == RunStart(bytes, i)
    ensures Reported(bytes, minLength, i + 1) == Reported(bytes, minLength, i)
  {
  }

  /** A non-printable byte ends the current run, reporting it when it qualifies. */
  lemma EndRun(bytes: seq<byte>, minLength: int, i: int, current: seq<byte>, startIndex: int)
    requires 0 <= i < |bytes| && !IsPrintable(bytes[i])
    requires current == bytes[RunStart(bytes, i)..i]
    requires current != [] ==> startIndex == RunStart(bytes, i)
    ensures [] == bytes[RunStart(bytes, i + 1)..i + 1]
    ensures Reported(bytes, minLength, i + 1) == Reported(bytes, minLength, i)
      + if |current| >= minLength && AsciiString(current).Some? && !IsNoise(AsciiString(current).value)
        then [ScannedMessage(AsciiString(current).value, startIndex, "ASCII")] else []
  {
    if current == [] {
      assert !HasAlphanumeric(AsciiText(current));
    }
  }

  /** `scanFile(path:minLength:)`'s byte loop over the file's contents. */
  method ScanBytes(bytes: seq<byte>, minLength: int) returns (results: seq<ScannedMessage>)
    ensures results == Reported(bytes, minLength, |bytes|)
  {
    results := [];
    var current: seq<byte> := [];
    var startIndex := 0;
    for i := 0 to |bytes|
      invariant current == bytes[RunStart(bytes, i)..i]
      invariant current != [] ==> startIndex == RunStart(bytes, i)
      invariant results == Reported(bytes, minLength, i)
    {
      var b := bytes[i];
      if 0x20 <= b <= 0x7E {
        ExtendRun(bytes, minLength, i, current);
        if current == [] {
          startIndex := i;
        }
        current := current + [b];
      } else {
        EndRun(bytes, minLength, i, current, startIndex);
        if |current| >= minLength {
          var s := AsciiString(current);
          if s.Some? && !IsNoise(s.value) {
            results := results + [ScannedMessage(s.value, startIndex, "ASCII")];
          }
        }
        current := [];
      }
    }
  }

  /** `scanFile`'s default minimum run length. */
  const DefaultMinLength: int := 5

  /** The error `scanFile` throws when the file cannot be read (an `NSError` with code 404). */
  datatype ScanError = FileNotFound(path: string)

  /**
   * `scanFile(path:minLength:)`: the file's contents, or `None` when reading it
   * fails, are a parameter; an unreadable file is an error, otherwise its bytes
   * are scanned.
   */
  method ScanFile(path: string, contents: Option<seq<byte>>, minLength: int) returns (r: Result<seq<ScannedMessage>, ScanError>)
    ensures contents.None? <==> r.Failure?
    ensures r.Failure? ==> r.error == FileNotFound(path)
    ensures r.Success? ==> r.value == Reported(contents.value, minLength, |contents.value|)
  {
    if contents.None? {
      return Failure(FileNotFound(path));
    }
    var results := ScanBytes(contents.value, minLength);
    return Success(results);
  }
}
