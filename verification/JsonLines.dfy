/** The append-only JSONL log of rooted_files.go: framing, torn-tail recovery and replay. */
module JsonLines {
  import opened Common

  const LF: Byte := 10
  const OPEN_BRACE: Byte := 123

  /** The two library functions the log depends on: bytes.TrimSpace and json.Valid. */
  datatype Json = Json(trim: Bytes -> Bytes, valid: Bytes -> bool)

  /** What an encoder promises of one JSON object: it is valid, starts with an opening brace, has no
      surrounding space, and (section 7 of RFC 8259) contains no raw line feed. */
  ghost predicate IsObject(json: Json, r: Bytes)
  {
    r != [] && r[0] == OPEN_BRACE && LF !in r && json.trim(r) == r && json.valid(r)
  }

  /** json.Marshal either yields something that is not an object, or a well-formed object. */
  ghost predicate IsEncoding(json: Json, r: Bytes)
  {
    r != [] && r[0] == OPEN_BRACE ==> IsObject(json, r)
  }

  // ----- Framing -----

  /** bytes.Split at line feeds: always at least one part, the last one unterminated. */
  function Split(s: Bytes): (parts: seq<Bytes>)
    ensures |parts| >= 1
  {
    if s == [] then [[]]
    else Prepended(s[0], Split(s[1..]))
  }

  /** The parts of a content that starts with x, given those of the rest. */
  function Prepended(x: Byte, parts: seq<Bytes>): (r: seq<Bytes>)
    requires parts != []
    ensures r != []
  {
    if x == LF then [[]] + parts else [[x] + parts[0]] + parts[1..]
  }

  /** The content up to and including its last line feed. */
  function Committed(c: Bytes): (r: Bytes)
    ensures r <= c
    ensures r == [] || r[|r| - 1] == LF
    ensures LF !in c[|r|..]
  {
    if c == [] || c[|c| - 1] == LF then c else Committed(c[..|c| - 1])
  }

  predicate Terminated(c: Bytes) {
    c == [] || c[|c| - 1] == LF
  }

  predicate LineOk(json: Json, raw: Bytes) {
    var line := json.trim(raw);
    line == [] || (json.valid(line) && line[0] == OPEN_BRACE)
  }

  predicate LinesOk(json: Json, parts: seq<Bytes>) {
    forall i :: 0 <= i < |parts| ==> LineOk(json, parts[i])
  }

  /** The non-blank lines, trimmed, in file order. */
  function Records(json: Json, parts: seq<Bytes>): seq<Bytes> {
    if parts == [] then []
    else
      var line := json.trim(parts[0]);
      (if line == [] then [] else [line]) + Records(json, parts[1..])
  }

  function Frames(rs: seq<Bytes>): Bytes {
    if rs == [] then [] else rs[0] + [LF] + Frames(rs[1..])
  }

  lemma PrependedConcat(x: Byte, p: seq<Bytes>, q: seq<Bytes>)
    requires p != []
    ensures Prepended(x, p + q) == Prepended(x, p) + q
  {
  }

  lemma RestOfWhole(whole: Bytes, a: Bytes, b: Bytes)
    requires whole == a + [LF] + b
    ensures a == [] ==> whole[0] == LF && whole[1..] == b
    ensures a != [] ==> whole[0] == a[0] && whole[1..] == a[1..] + [LF] + b
  {
  }

  lemma SplitStep(s: Bytes)
    requires s != []
    ensures Split(s) == Prepended(s[0], Split(s[1..]))
  {
  }

  lemma {:induction false} SplitAtFeed(a: Bytes, b: Bytes)
    ensures Split(a + [LF] + b) == Split(a) + Split(b)
  {
    var whole := a + [LF] + b;
    RestOfWhole(whole, a, b);
    SplitStep(whole);
    if a != [] {
      hide Split, Prepended;
      SplitStep(a);
      SplitAtFeed(a[1..], b);
      PrependedConcat(a[0], Split(a[1..]), Split(b));
    }
  }

  lemma {:induction false} SplitPlain(r: Bytes)
    requires LF !in r
    ensures Split(r) == [r]
  {
    if r != [] {
      SplitPlain(r[1..]);
      assert r == [r[0]] + r[1..];
    }
  }

  lemma RecordsStep(json: Json, parts: seq<Bytes>)
    requires parts != []
    ensures Records(json, parts) == Records(json, parts[..1]) + Records(json, parts[1..])
  {
    assert parts[..1][1..] == [];
  }

  lemma FirstOfConcat(p: seq<Bytes>, q: seq<Bytes>)
    requires p != []
    ensures (p + q)[..1] == p[..1] && (p + q)[1..] == p[1..] + q
  {
  }

  lemma ConcatAssociates(a: seq<Bytes>, b: seq<Bytes>, c: seq<Bytes>)
    ensures a + (b + c) == (a + b) + c
  {
  }

  lemma {:induction false} RecordsConcat(json: Json, p: seq<Bytes>, q: seq<Bytes>)
    ensures Records(json, p + q) == Records(json, p) + Records(json, q)
  {
    if p == [] {
      assert p + q == q;
    } else {
      hide Records;
      RecordsConcat(json, p[1..], q);
      RecordsStep(json, p);
      RecordsStep(json, p + q);
      FirstOfConcat(p, q);
      ConcatAssociates(Records(json, p[..1]), Records(json, p[1..]), Records(json, q));
    }
  }

  // ----- The file -----

  /** Where an operation on the file stops. A crash is any of these; each leaves the bytes the model
      says it leaves and nothing is acknowledged. */
  datatype Fault =
    | NoFault
    | ReadFails
    | TruncateFails
    | TruncateSyncFails
    | WriteStops(n: nat)
    | SyncFails
    | DirSyncFails

  /** The effect of recoverJSONLTailWithLimit on the file, and whether it succeeded. */
  function RecoverStep(json: Json, c: Bytes, limit: Option<nat>, fault: Fault): (Bytes, bool) {
    var kept := Committed(c);
    if fault == ReadFails || (limit.Some? && |c| > limit.value) || !LinesOk(json, Split(kept)) then
      (c, false)
    else if kept == c then (c, true)
    else if fault == TruncateFails then (c, false)
    else (kept, fault != TruncateSyncFails)
  }

  /** The effect of appendJSONL, and whether the caller was told that the record is durable. */
  function AppendStep(json: Json, c: Bytes, enc: Bytes, fault: Fault): (Bytes, bool) {
    if enc == [] || enc[0] != OPEN_BRACE then (c, false)
    else
      var (kept, ok) := RecoverStep(json, c, None, fault);
      if !ok then (kept, false)
      else
        var frame := enc + [LF];
        match fault
        case WriteStops(n) => (kept + frame[..if n < |frame| then n else |frame|], false)
        case SyncFails => (kept + frame, false)
        case DirSyncFails => (kept + frame, false)
        case _ => (kept + frame, true)
  }

  datatype LogError = ReadError | InterruptedTail | InvalidRecord | RecoveryFailed

  class JsonlFile {
    var content: Bytes

    constructor ()
      ensures content == []
    {
      content := [];
    }

    /** recoverJSONLTailWithLimit: reads, validates every committed line, then drops a torn tail. */
    method Recover(json: Json, limit: Option<nat>, fault: Fault) returns (ok: bool)
      modifies this
      ensures (content, ok) == RecoverStep(json, old(content), limit, fault)
    {
      if fault == ReadFails || (limit.Some? && |content| > limit.value) {
        return false;
      }
      var committed := content;
      if |content| > 0 && content[|content| - 1] != LF {
        committed := Committed(content);
      }
      var parts := Split(committed);
      for i := 0 to |parts|
        invariant LinesOk(json, parts[..i])
        invariant content == old(content)
      {
        var line := json.trim(parts[i]);
        if |line| != 0 && (!json.valid(line) || line[0] != OPEN_BRACE) {
          assert !LineOk(json, parts[i]);
          return false;
        }
        assert parts[..i + 1] == parts[..i] + [parts[i]];
      }
      assert parts[..|parts|] == parts;
      if |committed| != |content| {
        if fault == TruncateFails {
          return false;
        }
        content := committed;
        if fault == TruncateSyncFails {
          return false;
        }
      }
      return true;
    }

    /** appendJSONL under the exclusive file lock. */
    method Append(json: Json, enc: Bytes, fault: Fault) returns (acked: bool)
      modifies this
      ensures (content, acked) == AppendStep(json, old(content), enc, fault)
    {
      if |enc| == 0 || enc[0] != OPEN_BRACE {
        return false;
      }
      var frame := enc + [LF];
      var recovered := Recover(json, None, fault);
      if !recovered {
        return false;
      }
      if fault.WriteStops? {
        content := content + frame[..if fault.n < |frame| then fault.n else |frame|];
        return false;
      }
      content := content + frame;
      return fault != SyncFails && fault != DirSyncFails;
    }

    /** readJSONLRecords: refuses an interrupted tail and any malformed line. */
    method ReadRecords(json: Json, limit: Option<nat>) returns (r: Result<seq<Bytes>, LogError>)
      ensures limit.Some? && |content| > limit.value ==> r == Err(ReadError)
      ensures !(limit.Some? && |content| > limit.value) ==>
                r == if !Terminated(content) then Err(InterruptedTail)
                     else if LinesOk(json, Split(content)) then Ok(Records(json, Split(content)))
                     else Err(InvalidRecord)
    {
      if limit.Some? && |content| > limit.value {
        return Err(ReadError);
      }
      if |content| > 0 && content[|content| - 1] != LF {
        return Err(InterruptedTail);
      }
      var parts := Split(content);
      var records := [];
      for i := 0 to |parts|
        invariant LinesOk(json, parts[..i])
        invariant records == Records(json, parts[..i])
      {
        var line := json.trim(parts[i]);
        assert parts[..i + 1] == parts[..i] + [parts[i]];
        RecordsConcat(json, parts[..i], [parts[i]]);
        if |line| != 0 {
          if !json.valid(line) || line[0] != OPEN_BRACE {
            assert !LineOk(json, parts[i]);
            return Err(InvalidRecord);
          }
          records := records + [line];
        }
      }
      assert parts[..|parts|] == parts;
      return Ok(records);
    }

    /** recoverAndReadJSONL: the replay offered inside a lock callback. */
    method RecoverAndRead(json: Json, limit: Option<nat>) returns (r: Result<seq<Bytes>, LogError>)
      modifies this
      ensures content == RecoverStep(json, old(content), limit, NoFault).0
      ensures !(limit.Some? && |old(content)| > limit.value) ==>
                r == if LinesOk(json, Split(Committed(old(content))))
                     then Ok(Records(json, Split(Committed(old(content))))) else Err(RecoveryFailed)
    {
      var ok := Recover(json, limit, NoFault);
      if !ok {
        return Err(RecoveryFailed);
      }
      r := ReadRecords(json, limit);
    }
  }

  // ----- What one recovery does, for every content -----

  /** Recovery never touches a newline-terminated byte; it fails exactly when a committed line is
      malformed, and then the file is as before; running it again changes nothing. */
  lemma RecoveryIsConservative(json: Json, c: Bytes)
    ensures var (c1, ok) := RecoverStep(json, c, None, NoFault);
            && Committed(c) <= c1
            && (ok <==> LinesOk(json, Split(Committed(c))))
            && (!ok ==> c1 == c)
            && (ok ==> Terminated(c1) && RecoverStep(json, c1, None, NoFault) == (c1, true))
  {
    CommittedOfCommitted(c);
  }

  /** With a limit, a longer file is refused and left alone, and any other is recovered as without one. */
  lemma RecoveryWithLimit(json: Json, c: Bytes, limit: nat, fault: Fault)
    ensures RecoverStep(json, c, Some(limit), fault) == if |c| > limit then (c, false) else RecoverStep(json, c, None, fault)
  {
    hide LinesOk, Split;
  }

  lemma CommittedOfCommitted(c: Bytes)
    ensures Committed(Committed(c)) == Committed(c)
  {
  }

  /** An unterminated run of bytes after a terminated prefix is exactly what recovery removes. */
  lemma {:induction false} CommittedDropsTail(c: Bytes, tail: Bytes)
    requires Terminated(c) && LF !in tail
    ensures Committed(c + tail) == c
  {
    if tail == [] {
      assert c + tail == c;
    } else {
      var t := tail[..|tail| - 1];
      CommittedDropsTail(c, t);
      assert (c + tail)[..|c + tail| - 1] == c + t;
    }
  }

  // ----- Whole runs -----

  datatype Event =
    | Append(enc: Bytes, appendFault: Fault)
    | Recovery(limit: Option<nat>, recoverFault: Fault)

  function StepEvent(json: Json, c: Bytes, e: Event): (Bytes, bool) {
    match e
    case Append(enc, fault) => AppendStep(json, c, enc, fault)
    case Recovery(limit, fault) => (RecoverStep(json, c, limit, fault).0, false)
  }

  function RunLog(json: Json, c: Bytes, events: seq<Event>): Bytes {
    if events == [] then c
    else StepEvent(json, RunLog(json, c, events[..|events| - 1]), events[|events| - 1]).0
  }

  /** Whether the i-th event of the run was an acknowledged append. */
  function Acked(json: Json, c: Bytes, events: seq<Event>, i: nat): bool
    requires i < |events|
  {
    StepEvent(json, RunLog(json, c, events[..i]), events[i]).1
  }

  /** The attempted records whose position is marked, in order. */
  function Chosen(events: seq<Event>, mask: seq<bool>): seq<Bytes>
    requires |mask| == |events|
  {
    if events == [] then []
    else
      var last := |events| - 1;
      Chosen(events[..last], mask[..last]) +
      (if mask[last] && events[last].Append? then [events[last].enc] else [])
  }

  /** The log holds the initial committed lines, the chosen records, and a torn tail. */
  ghost predicate Holds(json: Json, base: Bytes, kept: seq<Bytes>, c: Bytes)
  {
    && Terminated(base)
    && LinesOk(json, Split(base))
    && (forall i :: 0 <= i < |kept| ==> IsObject(json, kept[i]))
    && base + Frames(kept) <= c
    && LF !in c[|base + Frames(kept)|..]
  }

  lemma {:induction false} FramesAppend(rs: seq<Bytes>, r: Bytes)
    ensures Frames(rs + [r]) == Frames(rs) + r + [LF]
  {
    if rs == [] {
      assert rs + [r] == [r];
      assert Frames([r]) == r + [LF] + Frames([]);
    } else {
      FramesAppend(rs[1..], r);
      assert (rs + [r])[1..] == rs[1..] + [r];
    }
  }

  lemma {:induction false} FramesTerminated(base: Bytes, rs: seq<Bytes>)
    requires Terminated(base)
    ensures Terminated(base + Frames(rs))
  {
    if rs != [] {
      FramesTerminated(base, rs[..|rs| - 1]);
      FramesAppend(rs[..|rs| - 1], rs[|rs| - 1]);
      assert rs[..|rs| - 1] + [rs[|rs| - 1]] == rs;
    } else {
      assert base + Frames(rs) == base;
    }
  }

  lemma SplitTerminated(c: Bytes)
    requires Terminated(c)
    ensures Split(c)[|Split(c)| - 1] == []
  {
    if c != [] {
      WithoutLastFeed(c, []);
      SplitAtFeed(c[..|c| - 1], []);
    }
  }

  lemma SplitFrame(r: Bytes)
    requires LF !in r
    ensures Split(r + [LF]) == [r] + [[]]
  {
    SplitPlain(r);
    SplitAtFeed(r, []);
    assert r + [LF] == r + [LF] + [];
  }

  lemma WithoutLastFeed(c: Bytes, r: Bytes)
    requires c != [] && Terminated(c)
    ensures var d := c[..|c| - 1];
            c == d + [LF] + [] && c + r + [LF] == d + [LF] + (r + [LF])
  {
  }

  lemma LastPartReplaced(p: seq<Bytes>, parts: seq<Bytes>, r: Bytes)
    requires parts == p + [[]]
    ensures p + ([r] + [[]]) == parts[..|parts| - 1] + [r] + [[]]
  {
  }

  /** Appending one framed record to a terminated log turns its empty last part into that record. */
  lemma SplitFramed(c: Bytes, r: Bytes)
    requires Terminated(c) && LF !in r
    ensures Split(c + r + [LF]) == Split(c)[..|Split(c)| - 1] + [r] + [[]]
  {
    SplitFrame(r);
    if c == [] {
      assert c + r + [LF] == r + [LF];
    } else {
      var d := c[..|c| - 1];
      WithoutLastFeed(c, r);
      SplitAtFeed(d, []);
      SplitAtFeed(d, r + [LF]);
      LastPartReplaced(Split(d), Split(c), r);
      hide Split;
    }
  }

  lemma RecordsSnoc(json: Json, p: seq<Bytes>, raw: Bytes)
    ensures Records(json, p + [raw]) ==
            Records(json, p) + (if json.trim(raw) == [] then [] else [json.trim(raw)])
  {
    RecordsConcat(json, p, [raw]);
    assert [raw][1..] == [];
  }

  lemma ReplayParts(json: Json, p: seq<Bytes>, r: Bytes)
    requires json.trim([]) == [] && LinesOk(json, p + [[]]) && IsObject(json, r)
    ensures LinesOk(json, p + [r] + [[]])
    ensures Records(json, p + [r] + [[]]) == Records(json, p + [[]]) + [r]
  {
    RecordsSnoc(json, p, []);
    RecordsSnoc(json, p, r);
    RecordsSnoc(json, p + [r], []);
    assert forall i :: 0 <= i < |p| ==> p[i] == (p + [[]])[i];
  }

  lemma ReplayOne(json: Json, c: Bytes, r: Bytes)
    requires json.trim([]) == []
    requires Terminated(c) && LinesOk(json, Split(c)) && IsObject(json, r)
    ensures LinesOk(json, Split(c + r + [LF]))
    ensures Records(json, Split(c + r + [LF])) == Records(json, Split(c)) + [r]
  {
    hide Split, Records, LinesOk;
    SplitTerminated(c);
    SplitFramed(c, r);
    var p := Split(c)[..|Split(c)| - 1];
    assert Split(c) == p + [[]];
    ReplayParts(json, p, r);
  }

  /** Replaying a well-framed log yields the initial records followed by the framed ones. */
  lemma {:induction false} ReplayFrames(json: Json, base: Bytes, kept: seq<Bytes>)
    requires json.trim([]) == []
    requires Terminated(base) && LinesOk(json, Split(base))
    requires forall i :: 0 <= i < |kept| ==> IsObject(json, kept[i])
    ensures LinesOk(json, Split(base + Frames(kept)))
    ensures Records(json, Split(base + Frames(kept))) == Records(json, Split(base)) + kept
  {
    hide LinesOk, Records, Split, IsObject, Terminated;
    if kept == [] {
      assert base + Frames(kept) == base;
    } else {
      var init, r := kept[..|kept| - 1], kept[|kept| - 1];
      ReplayFrames(json, base, init);
      FramesAppend(init, r);
      FramesTerminated(base, init);
      ReplayOne(json, base + Frames(init), r);
      assert init + [r] == kept;
      assert base + Frames(kept) == base + Frames(init) + r + [LF];
    }
  }

  lemma HoldsCommitted(json: Json, base: Bytes, kept: seq<Bytes>, c: Bytes)
    requires Holds(json, base, kept, c)
    ensures Committed(c) == base + Frames(kept)
  {
    var good := base + Frames(kept);
    FramesTerminated(base, kept);
    CommittedDropsTail(good, c[|good|..]);
    assert c == good + c[|good|..];
  }

  lemma Reassociate(a: Bytes, b: Bytes, c: Bytes, d: Bytes)
    ensures a + b + (c + d) == a + (b + c + d)
  {
  }

  lemma HoldsExactly(json: Json, base: Bytes, kept: seq<Bytes>)
    requires Terminated(base) && LinesOk(json, Split(base))
    requires forall i :: 0 <= i < |kept| ==> IsObject(json, kept[i])
    ensures Holds(json, base, kept, base + Frames(kept))
  {
  }

  lemma HoldsAppended(json: Json, base: Bytes, kept: seq<Bytes>, enc: Bytes)
    requires Holds(json, base, kept, base + Frames(kept)) && IsObject(json, enc)
    ensures Holds(json, base, kept + [enc], base + Frames(kept) + (enc + [LF]))
  {
    hide Split, LinesOk, Terminated, IsObject;
    FramesAppend(kept, enc);
    Reassociate(base, Frames(kept), enc, [LF]);
    HoldsExactly(json, base, kept + [enc]);
  }

  lemma HoldsTorn(json: Json, base: Bytes, kept: seq<Bytes>, enc: Bytes, n: nat)
    requires Holds(json, base, kept, base + Frames(kept)) && LF !in enc && n <= |enc|
    ensures Holds(json, base, kept, base + Frames(kept) + (enc + [LF])[..n])
  {
    assert (enc + [LF])[..n] == enc[..n];
    var c := base + Frames(kept) + enc[..n];
    assert c[|base + Frames(kept)|..] == enc[..n];
  }

  /** One event keeps the log well framed; an acknowledged record is among those it holds. */
  lemma StepHolds(json: Json, base: Bytes, kept: seq<Bytes>, c: Bytes, e: Event) returns (added: bool)
    requires Holds(json, base, kept, c)
    requires e.Append? ==> IsEncoding(json, e.enc)
    ensures StepEvent(json, c, e).1 ==> added
    ensures added ==> e.Append?
    ensures Holds(json, base, if added then kept + [e.enc] else kept, StepEvent(json, c, e).0)
  {
    hide Split, LinesOk, Frames, Committed;
    HoldsCommitted(json, base, kept, c);
    var good := base + Frames(kept);
    assert Holds(json, base, kept, good);
    added := false;
    if e.Append? && e.enc != [] && e.enc[0] == OPEN_BRACE {
      var (r, ok) := RecoverStep(json, c, None, e.appendFault);
      if ok {
        assert r == good;
        var frame := e.enc + [LF];
        if e.appendFault.WriteStops? && e.appendFault.n < |frame| {
          HoldsTorn(json, base, kept, e.enc, e.appendFault.n);
        } else {
          added := true;
          HoldsAppended(json, base, kept, e.enc);
          assert frame[..|frame|] == frame;
        }
      }
    }
  }

  lemma {:induction false} RunHolds(json: Json, c: Bytes, events: seq<Event>) returns (mask: seq<bool>)
    requires json.trim([]) == []
    requires LinesOk(json, Split(Committed(c)))
    requires forall i :: 0 <= i < |events| && events[i].Append? ==> IsEncoding(json, events[i].enc)
    ensures |mask| == |events|
    ensures forall i :: 0 <= i < |events| && Acked(json, c, events, i) ==> mask[i]
    ensures Holds(json, Committed(c), Chosen(events, mask), RunLog(json, c, events))
  {
    if events == [] {
      mask := [];
      assert Committed(c) + Frames([]) == Committed(c);
    } else {
      var n := |events| - 1;
      var init := RunHolds(json, c, events[..n]);
      var c1 := RunLog(json, c, events[..n]);
      var added := StepHolds(json, Committed(c), Chosen(events[..n], init), c1, events[n]);
      mask := init + [added];
      assert mask[..n] == init;
      AckedPrefix(json, c, events);
      assert Chosen(events, mask) ==
        if added then Chosen(events[..n], init) + [events[n].enc] else Chosen(events[..n], init);
    }
  }

  lemma AckedPrefix(json: Json, c: Bytes, events: seq<Event>)
    requires events != []
    ensures forall i :: 0 <= i < |events| - 1 ==>
              Acked(json, c, events, i) == Acked(json, c, events[..|events| - 1], i)
  {
    forall i | 0 <= i < |events| - 1
      ensures Acked(json, c, events, i) == Acked(json, c, events[..|events| - 1], i)
    {
      assert events[..|events| - 1][..i] == events[..i];
    }
  }

  /** For every run of appends and recoveries in which any step may stop at any byte: recovery of the
      final file succeeds, and replay gives the initial records followed by a subsequence of the
      attempted records, in order, that contains every acknowledged one. */
  lemma RecoveredRecords(json: Json, c: Bytes, events: seq<Event>)
    requires json.trim([]) == []
    requires LinesOk(json, Split(Committed(c)))
    requires forall i :: 0 <= i < |events| && events[i].Append? ==> IsEncoding(json, events[i].enc)
    ensures var final := RunLog(json, c, events);
            && LinesOk(json, Split(Committed(final)))
            && RecoverStep(json, final, None, NoFault) == (Committed(final), true)
            && exists mask: seq<bool> ::
                 && |mask| == |events|
                 && (forall i :: 0 <= i < |events| && Acked(json, c, events, i) ==> mask[i])
                 && Records(json, Split(Committed(final))) ==
                    Records(json, Split(Committed(c))) + Chosen(events, mask)
  {
    hide Records, Split, Frames, Committed, Chosen, RunLog, LinesOk, Acked;
    var mask := RunHolds(json, c, events);
    var final := RunLog(json, c, events);
    var base, kept := Committed(c), Chosen(events, mask);
    var good := base + Frames(kept);
    FramesTerminated(base, kept);
    CommittedDropsTail(good, final[|good|..]);
    assert final == good + final[|good|..];
    ReplayFrames(json, base, kept);
  }

  /** When the lines are accepted, each record that is replayed is a valid JSON object on a line of its own, and every
      line that is not blank is replayed. */
  lemma {:induction false} ReplayedAreObjects(json: Json, parts: seq<Bytes>)
    ensures LinesOk(json, parts) <==>
            forall i :: 0 <= i < |parts| ==>
              var line := json.trim(parts[i]);
              line != [] ==> json.valid(line) && line[0] == OPEN_BRACE
    ensures forall r :: r in Records(json, parts) <==> r != [] && exists i :: 0 <= i < |parts| && r == json.trim(parts[i])
  {
    if parts != [] {
      ReplayedAreObjects(json, parts[1..]);
      forall r
        ensures r in Records(json, parts) <==> r != [] && exists i :: 0 <= i < |parts| && r == json.trim(parts[i])
      {
        if i :| 0 <= i < |parts| && r == json.trim(parts[i]) {
          assert i > 0 ==> parts[1..][i - 1] == parts[i];
        }
        if i :| 0 <= i < |parts[1..]| && r == json.trim(parts[1..][i]) {
          assert parts[i + 1] == parts[1..][i];
        }
      }
    }
  }

  /** What an append leaves: the bytes up to the last line feed and then the new line, or, when the write stops, as much of
      it as was written; it is acknowledged exactly when nothing went wrong. Without a recovered file or an object to write,
      nothing is written. */
  lemma AppendLeaves(json: Json, c: Bytes, enc: Bytes, fault: Fault)
    ensures var (c1, acked) := AppendStep(json, c, enc, fault);
            var writes := enc != [] && enc[0] == OPEN_BRACE && fault != ReadFails && LinesOk(json, Split(Committed(c)))
                          && (Committed(c) == c || (fault != TruncateFails && fault != TruncateSyncFails));
            && (!writes ==> !acked && (c1 == c || c1 == Committed(c)))
            && (writes ==>
                  && (fault.WriteStops? && fault.n <= |enc| ==> c1 == Committed(c) + (enc + [LF])[..fault.n])
                  && (fault.WriteStops? && fault.n > |enc| ==> c1 == Committed(c) + enc + [LF])
                  && (!fault.WriteStops? ==> c1 == Committed(c) + enc + [LF])
                  && (acked <==> !fault.WriteStops? && fault != SyncFails && fault != DirSyncFails))
  {
    hide LinesOk, Split, Committed;
    var kept, frame := Committed(c), enc + [LF];
    assert kept + frame == kept + enc + [LF];
    assert frame[..|frame|] == frame;
  }
}
