/**
 Crash recovery of the append log (crates/core/src/storage_append_log.rs:724-816): cutting the
 bytes of a log anywhere after its header loses at most the record being written, and is an error
 only where a whole line cannot be read, never an abort; but writing on after such a cut is only
 sound when the cut fell between lines.
 */
module Recovery {
  import opened Prelude
  import opened Json
  import opened JsonRoundTrip
  import opened JsonPrefix
  import opened JsonSplice
  import opened JsonIllFormed
  import opened Records
  import opened RecordRoundTrip
  import opened LogFile

  /** How many lines, newline included, lie within the first `k` bytes. */
  function WholeLines(rs: seq<Record>, k: nat): (n: nat)
    ensures n <= |rs|
  {
    if rs == [] || k <= |RecordText(rs[0])| then 0
    else 1 + WholeLines(rs[1..], k - |RecordText(rs[0])| - 1)
  }

  /** How many of the `k` bytes belong to the line after the whole ones. */
  function Leftover(rs: seq<Record>, k: nat): nat
  {
    if rs == [] || k <= |RecordText(rs[0])| then k
    else Leftover(rs[1..], k - |RecordText(rs[0])| - 1)
  }

  /** How many records a cut leaves: the whole lines, and a storable last one that lacks only its newline. */
  function Recovered(rs: seq<Record>, k: nat): (n: nat)
    ensures n <= |rs|
  {
    var n := WholeLines(rs, k);
    if n < |rs| && Leftover(rs, k) == |RecordText(rs[n])| && Storable(rs[n]) then n + 1 else n
  }

  lemma {:induction false} CutSplits(rs: seq<Record>, k: nat)
    requires k <= |LogText(rs)|
    ensures var n := WholeLines(rs, k); var p := Leftover(rs, k);
      (n == |rs| ==> p == 0) && (n < |rs| ==> p <= |RecordText(rs[n])|)
      && LogText(rs)[..k] == LogText(rs[..n]) + (if n == |rs| then "" else RecordText(rs[n])[..p])
  {
    hide RecordText;
    if rs == [] {
      assert rs[..0] == rs;
    } else {
      var t := RecordText(rs[0]);
      var n := WholeLines(rs, k);
      if k <= |t| {
        assert LogText(rs)[..k] == t[..k];
        assert rs[..0] == [];
      } else {
        var k' := k - |t| - 1;
        CutSplits(rs[1..], k');
        var tail := if n == |rs| then "" else RecordText(rs[n])[..Leftover(rs, k)];
        assert rs[..n][0] == rs[0] && rs[..n][1..] == rs[1..][..n - 1];
        assert LogText(rs)[..k] == t + "\n" + LogText(rs[1..])[..k'];
        Associative(t + "\n", LogText(rs[..n][1..]), tail);
      }
    }
  }

  // ---- A torn line -------------------------------------------------------

  /** What is no document and does not abort cannot be read, and does not abort. */
  lemma ReadNeedsJson(t: string)
    ensures Json.Parse(t).Err? && Json.Parse(t) != Err(SliceAbort) ==> Unreadable(t)
  {
    hide ReadRecord, Json.Parse;
  }

  lemma LineIsObject(r: Record)
    requires WritableRecord(r)
    ensures Writable(RecordDoc(r)) && RecordDoc(r).DObj?
    ensures var t := RecordText(r); t != [] && t[0] == '{' && t[|t| - 1] == '}' && !IsSpace(t[|t| - 1])
  {
    RecordLine(r);
    RecordOnOneLine(r);
    hide RecordText, WritableRecord, Writable;
  }

  /**
   A part of a printed object, up to some byte, either begins another one that parses, or goes on
   from where no value can stand.
   */
  lemma PartOfObject(d: Doc, p: nat) returns (whole: string, bad: bool, y: string)
    requires Writable(d) && d.DObj? && 0 < p <= |Print(d)|
    ensures !bad ==> Json.Parse(whole).Ok? && whole[0] == '{' && whole[|whole| - 1] == '}'
    ensures !bad ==> p <= |whole| && Print(d)[..p] == whole[..p] && (p < |Print(d)| ==> p < |whole|)
    ensures bad ==> !WellFormed(d) && Print(d)[..p] == Before(d) + y && BadHead(y)
    ensures bad ==> |y| == 1 || y[0] == 'N' || y[0] == 'i' || y[1] == 'i'
  {
    RepairedWellFormed(d);
    BracesAround(d);
    BracesAround(Repaired(d));
    whole, bad, y := Print(Repaired(d)), false, "";
    DocumentParses(Repaired(d));
    if !WellFormed(d) {
      var tail := PrintSplits(d);
      RepairedBegins(d);
      RepairedLonger(d);
      hide Print, Repaired, Before, WellFormed, Writable, Json.Parse;
      var head := Before(d);
      if p <= |head| {
        assert Print(d)[..p] == head[..p] == whole[..p];
      } else {
        bad, y := true, tail[..p - |head|];
        assert Print(d)[..p] == head + y;
      }
    }
  }

  lemma BracesAround(d: Doc)
    requires d.DObj?
    ensures Repaired(d).DObj? && Print(d) != "" && Print(d)[0] == '{' && Print(d)[|Print(d)| - 1] == '}'
  {
    hide PrintMembers, RepairedMembers;
  }

  /** The repaired document goes on after the first repair. */
  lemma RepairedLonger(d: Doc)
    requires Writable(d) && !WellFormed(d)
    ensures |Before(d)| < |Print(Repaired(d))|
  {
    RepairedBegins(d);
    RepairedWellFormed(d);
    FailsFrom(d, "N");
    PrintedParses(Repaired(d), "N");
    hide Print, Repaired, Before, WellFormed, Writable, ParseValue, Denote;
    var a, b := Before(d), Print(Repaired(d));
    assert a != b;
    assert b[..|a|] == a && b[..|b|] == b;
  }

  /** A record line up to some byte is the record when complete and storable, and unreadable otherwise. */
  lemma TornLineReads(r: Record, p: nat)
    requires WritableRecord(r) && 0 < p <= |RecordText(r)|
    ensures var line := Trim(RecordText(r)[..p]);
      line != [] && (if p == |RecordText(r)| && Storable(r) then ReadLine(line) == Ok(Some(r)) else Unreadable(line))
  {
    hide RecordText, ReadLine, Unreadable, WritableRecord, Storable, Trim;
    var t := RecordText(r);
    LineIsObject(r);
    TrimPart(t, p);
    if p == |t| {
      RecordCodec(r);
    } else {
      PartUnreadable(r, |Trim(t[..p])|);
    }
  }

  lemma PartUnreadable(r: Record, p: nat)
    requires WritableRecord(r) && 0 < p < |RecordText(r)|
    ensures Unreadable(RecordText(r)[..p])
  {
    LineIsObject(r);
    hide RecordDoc, WritableRecord, Json.Parse, ParseValue, Before, BadHead, Writable, WellFormed, Unreadable;
    var whole, bad, y := PartOfObject(RecordDoc(r), p);
    var part := RecordText(r)[..p];
    if bad {
      FailsFrom(RecordDoc(r), y);
      FailedText(part);
    } else {
      NoPrefixParses(whole, p);
    }
    ReadNeedsJson(part);
  }

  lemma FailedText(t: string)
    requires Fails(ParseValue(t))
    ensures Json.Parse(t).Err? && Json.Parse(t) != Err(SliceAbort)
  {
    hide ParseValue;
  }

  lemma TornHasNoNewline(r: Record, p: nat)
    requires WritableRecord(r) && p <= |RecordText(r)|
    ensures Split(RecordText(r)[..p], '\n') == [RecordText(r)[..p]]
    ensures !EndsWithNewline(RecordText(r)[..p])
  {
    RecordOnOneLine(r);
    hide RecordText;
    SplitNone(RecordText(r)[..p], '\n');
  }

  lemma EndOfConcat(a: string, b: string)
    ensures b != [] ==> EndsWithNewline(a + b) == EndsWithNewline(b)
    ensures b == [] ==> a + b == a
  {
  }

  lemma PrefixWithin(rs: seq<Record>, n: nat)
    requires BackendLog(rs) && n <= |rs|
    ensures BackendLog(rs[..n])
  {
    hide WritableRecord;
  }

  /** Loading lines that are followed by part of one more line. */
  lemma LoadTorn(rs: seq<Record>, r: Record, p: nat)
    requires BackendLog(rs) && WritableRecord(r) && (r.SchemaVersion? ==> r.version == SCHEMA_VERSION)
    requires 0 < p <= |RecordText(r)|
    requires rs == [] ==> IsHeader(r) && p == |RecordText(r)|
    ensures AllStorable(rs) ==>
      Load(LogText(rs) + RecordText(r)[..p]) == Ok(if p == |RecordText(r)| && Storable(r) then rs + [r] else rs)
    ensures !AllStorable(rs) ==> Refused(Load(LogText(rs) + RecordText(r)[..p]))
  {
    HeaderStorable(r);
    hide WritableRecord, Storable, RecordText, ReadLine, LoadSegments, LogText, Trim, AllStorable, Unreadable, IsHeader;
    var torn := RecordText(r)[..p];
    var bytes := LogText(rs) + torn;
    EndOfConcat(LogText(rs), torn);
    TornHasNoNewline(r, p);
    LoadLines(rs, torn, false, false, []);
    assert [] + rs == rs;
    TornLineReads(r, p);
    assert [torn] + [] == [torn];
    if p == |RecordText(r)| && Storable(r) {
      LoadStep(torn, [], rs != [], false, rs);
      LoadEnd(rs + [r]);
    } else {
      LoadBroken(torn, [], rs != [], false, rs);
    }
  }

  lemma HeaderStorable(r: Record)
    ensures IsHeader(r) ==> Storable(r)
  {
  }

  lemma LoadEnd(applied: seq<Record>)
    ensures LoadSegments([], true, false, applied) == Ok(applied)
  {
  }

  // ---- Crash recovery ----------------------------------------------------

  /**
   Crash recovery.  Whatever the backend wrote, cutting the bytes at or after the end of the
   header record loads exactly the records that the cut leaves, if the whole lines in it are
   storable, and is refused otherwise.  What lies beyond the cut does not matter, and nothing
   aborts.
   */
  lemma CrashRecovery(rs: seq<Record>, k: nat)
    requires BackendLog(rs) && rs != [] && |RecordText(rs[0])| <= k <= |LogText(rs)|
    ensures AllStorable(rs[..WholeLines(rs, k)]) ==> Load(LogText(rs)[..k]) == Ok(rs[..Recovered(rs, k)])
    ensures !AllStorable(rs[..WholeLines(rs, k)]) ==> Refused(Load(LogText(rs)[..k]))
  {
    hide WritableRecord, Storable, RecordText, ReadLine, LoadSegments, LogText, Load, AllStorable;
    var n, p := WholeLines(rs, k), Leftover(rs, k);
    CutSplits(rs, k);
    PrefixWithin(rs, n);
    if n == |rs| || p == 0 {
      assert LogText(rs)[..k] == LogText(rs[..n]) by { CutClean(rs, k); }
      LogLoads(rs[..n]);
      RecoveredClean(rs, k);
    } else {
      assert n == 0 ==> k == p by { LeftoverFirst(rs, k); }
      assert rs[..0] == [];
      LoadTorn(rs[..n], rs[n], p);
      assert rs[..n] + [rs[n]] == rs[..n + 1];
    }
  }

  /** Cut inside the header, the file is refused; cut to nothing, it is a new one. */
  lemma TornHeader(rs: seq<Record>, k: nat)
    requires BackendLog(rs) && rs != [] && k < |RecordText(rs[0])| && k <= |LogText(rs)|
    ensures Load(LogText(rs)[..k]) == if k == 0 then Ok([]) else Err(BackendMismatch)
  {
    hide WritableRecord, Storable, RecordText, ReadLine, LoadSegments, LogText, Trim, IsHeader, Unreadable;
    LogUnfold(rs);
    var torn := RecordText(rs[0])[..k];
    assert LogText(rs)[..k] == torn;
    if k > 0 {
      TornHasNoNewline(rs[0], k);
      TornLineReads(rs[0], k);
      LoadBroken(torn, [], false, false, []);
      assert [torn] + [] == [torn];
    }
  }

  lemma LeftoverFirst(rs: seq<Record>, k: nat)
    ensures WholeLines(rs, k) == 0 ==> Leftover(rs, k) == k
  {
    hide RecordText;
  }

  lemma CutClean(rs: seq<Record>, k: nat)
    requires k <= |LogText(rs)| && (WholeLines(rs, k) == |rs| || Leftover(rs, k) == 0)
    ensures LogText(rs)[..k] == LogText(rs[..WholeLines(rs, k)])
  {
    CutSplits(rs, k);
    hide RecordText, LogText;
    var n := WholeLines(rs, k);
    assert LogText(rs[..n]) + "" == LogText(rs[..n]);
    if n < |rs| { assert RecordText(rs[n])[..0] == ""; }
  }

  lemma RecoveredClean(rs: seq<Record>, k: nat)
    requires k <= |LogText(rs)| && (WholeLines(rs, k) == |rs| || Leftover(rs, k) == 0)
    requires forall i :: 0 <= i < |rs| ==> WritableRecord(rs[i])
    ensures Recovered(rs, k) == WholeLines(rs, k)
  {
    var n := WholeLines(rs, k);
    hide RecordText, WritableRecord, WholeLines, Leftover;
    if n < |rs| { RecordLine(rs[n]); }
  }

  // ---- Writing on after a crash ------------------------------------------

  lemma LineOpens(r: Record)
    requires WritableRecord(r)
    ensures Opener(RecordText(r))
  {
    RecordLine(r);
    RecordOnOneLine(r);
    hide WritableRecord, RecordDoc, Print, ParseValue, Denote, Writable, WellFormed;
    assert RecordText(r) + "" == RecordText(r);
    if WellFormed(RecordDoc(r)) { PrintedParses(RecordDoc(r), ""); } else { IllFormedFails(RecordDoc(r), ""); }
  }

  /** A torn line and the record written after it make one line that cannot be read. */
  lemma MergedLineFails(r: Record, p: nat, s: Record)
    requires WritableRecord(r) && 0 < p <= |RecordText(r)| && WritableRecord(s)
    ensures var line := RecordText(r)[..p] + RecordText(s);
      Trim(line) == line && line != [] && Unreadable(line)
  {
    hide RecordText, RecordDoc, Print, WritableRecord, Json.Parse, Writable, Unreadable, Trim, Opener;
    var t, l := RecordText(r), RecordText(s);
    LineIsObject(r);
    TextIsPrint(r);
    LineOpens(s);
    RecordLine(s);
    MergedTrimmed(t[..p], l);
    PartThenOpener(RecordDoc(r), p, l);
    ReadNeedsJson(t[..p] + l);
  }

  lemma TextIsPrint(r: Record)
    ensures RecordText(r) == Print(RecordDoc(r))
  {
  }

  lemma PartThenOpener(d: Doc, p: nat, l: string)
    requires Writable(d) && d.DObj? && 0 < p <= |Print(d)| && Opener(l)
    ensures var t := Print(d)[..p] + l; Json.Parse(t).Err? && Json.Parse(t) != Err(SliceAbort)
  {
    hide Print, Json.Parse, ParseValue, Before, Writable, WellFormed;
    var whole, bad, y := PartOfObject(d, p);
    if bad {
      assert BadHead(y + l);
      assert Print(d)[..p] + l == Before(d) + (y + l);
      FailsFrom(d, y + l);
      FailedText(Print(d)[..p] + l);
    } else {
      var f, x := whole[..p], whole[p..];
      assert f + x == whole;
      assert x != [] ==> x[|x| - 1] == '}';
      BrokenLineRejected(f, x, l);
    }
  }

  lemma MergedTrimmed(f: string, l: string)
    requires f != [] && f[0] == '{' && l != [] && l[|l| - 1] == '}'
    ensures Trim(f + l) == f + l
  {
    var m := f + l;
    assert m[0] == '{' && m[|m| - 1] == '}';
    TrimWhole(m);
  }

  /**
   The program neither truncates a torn tail on recovery nor starts a new line after it
   (crates/core/src/storage_append_log.rs:703-715, 769-772).  So writing on after recovery and
   loading again gives the recovered records followed by the new ones exactly when the cut fell
   right after a newline and every line can be read; otherwise the file is refused.
   */
  lemma AppendAfterRecovery(rs: seq<Record>, k: nat, more: seq<Record>)
    requires BackendLog(rs) && rs != [] && |RecordText(rs[0])| <= k <= |LogText(rs)|
    requires more != [] && forall i :: 0 <= i < |more| ==> WritableRecord(more[i])
    requires forall i :: 0 <= i < |more| ==> (more[i].SchemaVersion? ==> more[i].version == SCHEMA_VERSION)
    ensures var cut := LogText(rs)[..k]; var loaded := Load(cut + LogText(more));
      if EndsWithNewline(cut) && AllStorable(rs[..WholeLines(rs, k)]) && AllStorable(more)
      then loaded == Ok(rs[..Recovered(rs, k)] + more) else Refused(loaded)
  {
    hide WritableRecord, Storable, RecordText, ReadLine, LoadSegments, LogText, Load, EndsWithNewline, AllStorable;
    var n, p := WholeLines(rs, k), Leftover(rs, k);
    CutSplits(rs, k);
    PrefixWithin(rs, n);
    if n == |rs| || p == 0 {
      CutClean(rs, k);
      RecoveredClean(rs, k);
      assert RecordText(rs[0]) != [] by { RecordLine(rs[0]); }
      assert n > 0 by { LeftoverFirst(rs, k); }
      LogEnds(rs[..n]);
      LogConcat(rs[..n], more);
      JoinedWithin(rs[..n], more);
      LogLoads(rs[..n] + more);
    } else {
      var torn := RecordText(rs[n])[..p];
      TornHasNoNewline(rs[n], p);
      EndOfConcat(LogText(rs[..n]), torn);
      LoadMerged(rs[..n], rs[n], p, more);
    }
  }

  lemma {:induction false} LogConcat(a: seq<Record>, b: seq<Record>)
    ensures LogText(a + b) == LogText(a) + LogText(b)
  {
    hide RecordText;
    if a == [] {
      assert a + b == b;
    } else {
      assert (a + b)[1..] == a[1..] + b;
      LogConcat(a[1..], b);
      Associative(RecordText(a[0]) + "\n", LogText(a[1..]), LogText(b));
    }
  }

  lemma JoinedWithin(a: seq<Record>, b: seq<Record>)
    requires BackendLog(a) && a != []
    requires forall i :: 0 <= i < |b| ==> WritableRecord(b[i])
    requires forall i :: 0 <= i < |b| ==> (b[i].SchemaVersion? ==> b[i].version == SCHEMA_VERSION)
    ensures BackendLog(a + b) && (AllStorable(a + b) <==> AllStorable(a) && AllStorable(b))
  {
    hide WritableRecord, Storable;
    assert forall i :: 0 <= i < |a| ==> (a + b)[i] == a[i];
    assert forall i :: 0 <= i < |b| ==> (a + b)[|a| + i] == b[i];
  }

  lemma LoadMerged(rs: seq<Record>, r: Record, p: nat, more: seq<Record>)
    requires BackendLog(rs) && WritableRecord(r) && 0 < p <= |RecordText(r)|
    requires more != [] && WritableRecord(more[0])
    ensures Refused(Load(LogText(rs) + RecordText(r)[..p] + LogText(more)))
  {
    hide WritableRecord, Storable, RecordText, ReadLine, LoadSegments, LogText, Trim, AllStorable, Unreadable;
    var torn, l, rest := RecordText(r)[..p], RecordText(more[0]), LogText(more[1..]);
    assert LogText(more) == l + "\n" + rest by { LogUnfold(more); }
    var tail := torn + l + "\n" + rest;
    var bytes := LogText(rs) + torn + LogText(more);
    assert bytes == LogText(rs) + tail;
    var ends := EndsWithNewline(bytes);
    LoadLines(rs, tail, false, ends, []);
    RecordOnOneLine(r);
    RecordOnOneLine(more[0]);
    SplitCons(torn + l, '\n', rest);
    MergedLineFails(r, p, more[0]);
    LoadBroken(torn + l, Split(rest, '\n'), rs != [], ends, [] + rs);
  }

  lemma LogUnfold(rs: seq<Record>)
    requires rs != []
    ensures LogText(rs) == RecordText(rs[0]) + "\n" + LogText(rs[1..])
  {
  }
}
