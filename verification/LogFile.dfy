/**
 The append log as bytes (crates/core/src/storage_append_log.rs): one record a line, loaded by
 splitting at newlines.  A crash leaves a prefix of what was written.

 Loading is specified as the sequence of records it would apply to an empty state.
 */
module LogFile {
  import opened Prelude
  import opened Json
  import opened JsonRoundTrip
  import opened Records
  import opened RecordRoundTrip
  import Utf8

  /** The bytes of a log. */
  function LogText(rs: seq<Record>): string
  {
    if rs == [] then "" else RecordText(rs[0]) + "\n" + LogText(rs[1..])
  }

  // ---- Loading -----------------------------------------------------------

  /** `Aborted` is no error of the program: reading a line slices inside a character. */
  datatype LoadError = BackendMismatch | SchemaMismatch(found: nat) | Corruption | Aborted

  predicate IsAsciiWhitespace(c: char)
  {
    c == ' ' || c == '\t' || c == '\n' || c == '\r' || c == 12 as char
  }

  function TrimStart(s: string): (t: string)
    ensures |t| <= |s|
  {
    if s != [] && IsAsciiWhitespace(s[0]) then TrimStart(s[1..]) else s
  }

  function TrimEnd(s: string): (t: string)
    ensures t <= s && (t == [] || !IsAsciiWhitespace(t[|t| - 1]))
  {
    if s != [] && IsAsciiWhitespace(s[|s| - 1]) then TrimEnd(s[..|s| - 1]) else s
  }

  function Trim(s: string): string
  {
    TrimEnd(TrimStart(s))
  }

  predicate IsHeader(r: Record)
  {
    r == Header(MAGIC)
  }

  /** What the load loop does from some segment on. */
  function LoadSegments(segments: seq<string>, sawValid: bool, endsWithNewline: bool, applied: seq<Record>)
    : Result<seq<Record>, LoadError>
    decreases |segments|
  {
    if segments == [] then Ok(applied)
    else
      var line := Trim(segments[0]);
      if line == [] then LoadSegments(segments[1..], sawValid, endsWithNewline, applied)
      else
        match ReadLine(line)
        case Ok(None) => LoadSegments(segments[1..], true, endsWithNewline, applied)
        case Ok(Some(r)) =>
          if !sawValid && !IsHeader(r) then Err(BackendMismatch)
          else if r.SchemaVersion? && r.version != SCHEMA_VERSION then Err(SchemaMismatch(r.version))
          else LoadSegments(segments[1..], true, endsWithNewline, applied + [r])
        case Err(e) =>
          if e == NotJson(SliceAbort) then Err(Aborted)
          else if sawValid && |segments| == 1 && !endsWithNewline then Ok(applied)
          else if !sawValid then Err(BackendMismatch)
          else Err(Corruption)
  }

  function EndsWithNewline(bytes: string): bool
  {
    bytes != [] && bytes[|bytes| - 1] == '\n'
  }

  /** The records that loading the file applies, in order. */
  function Load(bytes: string): Result<seq<Record>, LoadError>
  {
    if bytes == [] then Ok([])
    else LoadSegments(Split(bytes, '\n'), false, EndsWithNewline(bytes), [])
  }

  /** Loading ends in an error, not in an abort. */
  predicate Refused(loaded: Result<seq<Record>, LoadError>)
  {
    loaded.Err? && loaded.error != Aborted
  }

  // ---- Logs of the backend -----------------------------------------------

  /** What the backend writes: a header first, and only the current schema version. */
  predicate BackendLog(rs: seq<Record>)
  {
    (rs != [] ==> IsHeader(rs[0]))
    && (forall i :: 0 <= i < |rs| ==> WritableRecord(rs[i]))
    && (forall i :: 0 <= i < |rs| ==> (rs[i].SchemaVersion? ==> rs[i].version == SCHEMA_VERSION))
  }

  predicate AllStorable(rs: seq<Record>)
  {
    forall i :: 0 <= i < |rs| ==> Storable(rs[i])
  }

  // ---- Lines -------------------------------------------------------------

  /** The line of a record is an object on one line that opens with its kind. */
  lemma RecordLine(r: Record)
    requires WritableRecord(r)
    ensures var t := RecordText(r);
      |t| >= 5 && t[0] == '{' && t[1] == '"' && 'A' <= t[2] <= 'Z' && t[|t| - 1] == '}'
      && t[3] as int < 0x80 && t[4] as int < 0x80
  {
    KindNamed(r);
    hide Kind, RecordMembers, WritableRecord, Print;
    SingleMemberText(Kind(r), DObj(RecordMembers(r)));
    var t := RecordText(r);
    assert t[2] == t[2..5][0] && t[3] == t[2..5][1] && t[4] == t[2..5][2];
  }

  predicate Letter(c: char)
  {
    'A' <= c <= 'Z' || 'a' <= c <= 'z'
  }

  /** Upper-case first and ASCII letters after it. */
  predicate Named(key: string)
  {
    |key| >= 3 && 'A' <= key[0] <= 'Z' && Letter(key[1]) && Letter(key[2])
  }

  lemma KindNamed(r: Record)
    ensures Named(Kind(r))
  {
  }

  lemma SingleMemberText(key: string, d: Doc)
    requires Named(key)
    ensures var t := Print(DObj([Member(key, d)]));
      |t| >= 5 && t[0] == '{' && t[1] == '"' && t[2..5] == key[..3] && t[|t| - 1] == '}'
  {
    var m := Member(key, d);
    assert PrintMembers([m]) == Quote(key) + ":" + Print(d);
    hide Print, PrintMembers;
    EscapeLetters(key);
    BracedText(Escape(key), Print(d));
  }

  lemma BracedText(e: string, p: string)
    requires |e| >= 3
    ensures var t := "{" + ("\"" + e + "\"" + ":" + p) + "}";
      |t| >= 5 && t[0] == '{' && t[1] == '"' && t[2..5] == e[..3] && t[|t| - 1] == '}'
  {
  }

  lemma EscapeLetters(s: string)
    requires Named(s)
    ensures |Escape(s)| >= 3 && Escape(s)[..3] == s[..3]
  {
    var t, u := s[1..], s[1..][1..];
    assert Escape(s) == [s[0]] + Escape(t);
    assert Escape(t) == [s[1]] + Escape(u);
    assert Escape(u) == [s[2]] + Escape(u[1..]);
  }

  lemma RecordOnOneLine(r: Record)
    requires WritableRecord(r)
    ensures '\n' !in RecordText(r) && Writable(RecordDoc(r))
  {
    hide Kind, RecordMembers, Print, WritableRecord, Writable, Utf8.Valid;
    BodySound(r);
    KindAscii(r);
    Utf8.AsciiValid(Kind(r));
    OneField(Kind(r), DObj(RecordMembers(r)));
    PrintedLine(RecordDoc(r));
  }

  lemma TrimWhole(t: string)
    requires t != [] && !IsAsciiWhitespace(t[0]) && !IsAsciiWhitespace(t[|t| - 1])
    ensures Trim(t) == t
  {
  }

  /** Trimming a part of a line from its first byte leaves a part from the first byte. */
  lemma {:induction false} TrimPart(t: string, k: nat)
    requires 0 < k <= |t| && !IsAsciiWhitespace(t[0])
    ensures var p := Trim(t[..k]); 0 < |p| <= k && p == t[..|p|]
    ensures k == |t| && !IsAsciiWhitespace(t[|t| - 1]) ==> Trim(t[..k]) == t
  {
    var p := t[..k];
    assert TrimStart(p) == p;
    TrimEndPart(p);
    assert TrimEnd(p) == t[..|TrimEnd(p)|];
    if k == |t| { assert p == t; }
  }

  lemma {:induction false} TrimEndPart(s: string)
    requires s != [] && !IsAsciiWhitespace(s[0])
    ensures TrimEnd(s) != []
  {
    if IsAsciiWhitespace(s[|s| - 1]) { TrimEndPart(s[..|s| - 1]); }
  }

  // ---- Whole lines -------------------------------------------------------

  lemma LogSplit(r: Record, rest: string)
    requires WritableRecord(r)
    ensures Split(RecordText(r) + "\n" + rest, '\n') == [RecordText(r)] + Split(rest, '\n')
  {
    RecordOnOneLine(r);
    hide RecordText;
    SplitCons(RecordText(r), '\n', rest);
  }

  /** The load loop on one segment that is not blank. */
  lemma LoadStep(t: string, segments: seq<string>, sawValid: bool, ends: bool, applied: seq<Record>)
    requires Trim(t) != []
    ensures var l := LoadSegments([t] + segments, sawValid, ends, applied); var read := ReadLine(Trim(t));
      match read
      case Ok(None) => l == LoadSegments(segments, true, ends, applied)
      case Ok(Some(r)) =>
        (if !sawValid && !IsHeader(r) then l == Err(BackendMismatch)
         else if r.SchemaVersion? && r.version != SCHEMA_VERSION then l == Err(SchemaMismatch(r.version))
         else l == LoadSegments(segments, true, ends, applied + [r]))
      case Err(e) =>
        l == if e == NotJson(SliceAbort) then Err(Aborted)
             else if sawValid && segments == [] && !ends then Ok(applied)
             else if !sawValid then Err(BackendMismatch) else Err(Corruption)
  {
    hide ReadLine, Trim;
    var s := [t] + segments;
    assert s[0] == t && s[1..] == segments;
  }

  /** The load loop on a line that cannot be read. */
  lemma LoadBroken(t: string, segments: seq<string>, sawValid: bool, ends: bool, applied: seq<Record>)
    requires Trim(t) != [] && Unreadable(Trim(t))
    ensures LoadSegments([t] + segments, sawValid, ends, applied)
      == if sawValid && segments == [] && !ends then Ok(applied)
         else if !sawValid then Err(BackendMismatch) else Err(Corruption)
  {
    hide ReadLine, Trim, LoadSegments;
    LoadStep(t, segments, sawValid, ends, applied);
  }

  /** One whole line of a backend log: its record is applied, or the load fails. */
  lemma LoadLine(r: Record, segments: seq<string>, sawValid: bool, ends: bool, applied: seq<Record>)
    requires WritableRecord(r) && (r.SchemaVersion? ==> r.version == SCHEMA_VERSION)
    requires !sawValid ==> IsHeader(r)
    ensures var s := [RecordText(r)] + segments;
      Storable(r) ==> LoadSegments(s, sawValid, ends, applied) == LoadSegments(segments, true, ends, applied + [r])
    ensures !Storable(r) && segments != [] ==> Refused(LoadSegments([RecordText(r)] + segments, sawValid, ends, applied))
  {
    hide RecordText, ReadLine, Storable, LoadSegments, WritableRecord, Trim, IsHeader, Unreadable;
    LineReads(r);
    if Storable(r) {
      LoadStep(RecordText(r), segments, sawValid, ends, applied);
    } else {
      LoadBroken(RecordText(r), segments, sawValid, ends, applied);
    }
  }

  lemma LineReads(r: Record)
    requires WritableRecord(r)
    ensures var t := RecordText(r); Trim(t) == t && t != []
    ensures Storable(r) ==> ReadLine(Trim(RecordText(r))) == Ok(Some(r))
    ensures !Storable(r) ==> Unreadable(Trim(RecordText(r)))
  {
    hide RecordText, ReadLine, Storable, WritableRecord, Trim;
    RecordLine(r);
    RecordCodec(r);
    TrimWhole(RecordText(r));
  }

  lemma {:induction false} LoadLines(rs: seq<Record>, tail: string, sawValid: bool, ends: bool, applied: seq<Record>)
    requires forall i :: 0 <= i < |rs| ==> WritableRecord(rs[i])
    requires forall i :: 0 <= i < |rs| ==> (rs[i].SchemaVersion? ==> rs[i].version == SCHEMA_VERSION)
    requires !sawValid && rs != [] ==> IsHeader(rs[0])
    ensures AllStorable(rs) ==>
      LoadSegments(Split(LogText(rs) + tail, '\n'), sawValid, ends, applied)
      == LoadSegments(Split(tail, '\n'), sawValid || rs != [], ends, applied + rs)
    ensures !AllStorable(rs) ==> Refused(LoadSegments(Split(LogText(rs) + tail, '\n'), sawValid, ends, applied))
  {
    hide LoadSegments, RecordText, WritableRecord, Storable, IsHeader;
    if rs == [] {
      assert LogText(rs) + tail == tail;
      assert applied + rs == applied;
    } else {
      var r, rest := rs[0], rs[1..];
      var more := LogText(rest) + tail;
      assert LogText(rs) + tail == RecordText(r) + "\n" + more;
      LogSplit(r, more);
      LoadLine(r, Split(more, '\n'), sawValid, ends, applied);
      assert forall i :: 0 <= i < |rest| ==> rest[i] == rs[i + 1];
      assert AllStorable(rs) <==> Storable(r) && AllStorable(rest) by { StorableCons(rs); }
      if Storable(r) {
        LoadLines(rest, tail, true, ends, applied + [r]);
        assert applied + [r] + rest == applied + rs;
      }
    }
  }

  lemma StorableCons(rs: seq<Record>)
    requires rs != []
    ensures AllStorable(rs) <==> Storable(rs[0]) && AllStorable(rs[1..])
  {
    hide Storable;
    assert forall i :: 1 <= i < |rs| ==> rs[i] == rs[1..][i - 1];
  }

  lemma {:induction false} LogEnds(rs: seq<Record>)
    ensures rs != [] ==> EndsWithNewline(LogText(rs))
  {
    if |rs| > 1 { LogEnds(rs[1..]); }
    hide RecordText;
  }

  /**
   A log that the backend wrote loads to exactly its records when all of them are storable,
   and is refused otherwise.
   */
  lemma LogLoads(rs: seq<Record>)
    requires BackendLog(rs)
    ensures AllStorable(rs) ==> Load(LogText(rs)) == Ok(rs)
    ensures !AllStorable(rs) ==> Refused(Load(LogText(rs)))
  {
    hide LoadSegments, RecordText;
    if rs != [] {
      assert LogText(rs) + "" == LogText(rs);
      LoadLines(rs, "", false, true, []);
      LogEnds(rs);
      LoadNothing(rs);
      assert [] + rs == rs;
    }
  }

  lemma LoadNothing(applied: seq<Record>)
    ensures LoadSegments(Split("", '\n'), true, true, applied) == Ok(applied)
  {
  }
}
