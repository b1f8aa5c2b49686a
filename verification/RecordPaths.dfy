/** Record keys as file names (record_io.go, query.go): escaping, validation, expansion of a record_file
    name template, and recovery of the key from a listed path. */
module RecordPaths {

  // ----- Escaping -----

  function Code(c: char): string {
    if c == '/' then "%2F" else if c == '\\' then "%5C" else [c]
  }

  /** recordKeyToFileName. */
  function Escape(k: string): string {
    if k == "" then "" else Code(k[0]) + Escape(k[1..])
  }

  /** Escaping goes character by character: separators become %2F and %5C, everything else stays. */
  lemma {:induction false} EscapeIs(a: string, b: string)
    ensures Escape(a + b) == Escape(a) + Escape(b)
    ensures Escape("/") == "%2F" && Escape("\\") == "%5C"
    ensures (forall i :: 0 <= i < |a| ==> a[i] != '/' && a[i] != '\\') ==> Escape(a) == a
  {
    EscapeOne('/');
    EscapeOne('\\');
    hide Code;
    if a == "" {
      assert a + b == b;
    } else {
      assert (a + b)[1..] == a[1..] + b;
      EscapeIs(a[1..], b);
      EscapeOne(a[0]);
      assert a == [a[0]] + a[1..];
    }
  }

  lemma EscapeOne(c: char)
    ensures Escape([c]) == Code(c) && (c != '/' && c != '\\' ==> Code(c) == [c])
    ensures Code('/') == "%2F" && Code('\\') == "%5C"
  {
    assert [c][1..] == "";
  }

  /** An escape sequence starts the text. */
  predicate Escaped(s: string) {
    "%2F" <= s || "%5C" <= s
  }

  /** recordKeyFromFileName: left to right, without rescanning. */
  function Unescape(s: string): string
    decreases |s|
  {
    if s == "" then ""
    else if "%2F" <= s then "/" + Unescape(s[3..])
    else if "%5C" <= s then "\\" + Unescape(s[3..])
    else [s[0]] + Unescape(s[1..])
  }

  /** The text holds a literal escape sequence. */
  predicate HasEscape(s: string) {
    exists i :: 0 <= i < |s| && Escaped(s[i..])
  }

  lemma HasEscapeUnfold(s: string)
    requires s != ""
    ensures HasEscape(s) <==> Escaped(s) || HasEscape(s[1..])
  {
    assert s[0..] == s;
    assert forall i :: 0 <= i < |s[1..]| ==> s[1..][i..] == s[i + 1..];
    if i :| 0 <= i < |s| && Escaped(s[i..]) {
      assert i > 0 ==> s[i..] == s[1..][i - 1..];
    }
    if i :| 0 <= i < |s[1..]| && Escaped(s[1..][i..]) {
      assert Escaped(s[i + 1..]);
    }
  }

  lemma UnescapeCode(c: char, s: string)
    requires c == '/' || c == '\\'
    ensures Unescape(Code(c) + s) == [c] + Unescape(s)
  {
    var t := Code(c) + s;
    assert t[3..] == s;
    if c == '/' {
      assert "%2F" <= t;
    } else {
      assert "%5C" <= t;
      assert !("%2F" <= t) by { assert t[1] == '5'; }
    }
  }

  lemma CutAfterFirst(whole: string, c: char, rest: string, j: nat)
    requires whole == [c] + rest && 0 < j <= |whole|
    ensures whole[..j] == [c] + rest[..j - 1] && whole[j..] == rest[j - 1..]
  {
  }

  lemma {:induction false} StartOfEscape(k: string, j: nat)
    requires j <= |k| && j <= |Escape(k)|
    requires forall i :: 0 <= i < j ==> k[i] != '/' && k[i] != '\\'
    ensures Escape(k)[..j] == k[..j] && Escape(k)[j..] == Escape(k[j..])
    decreases j
  {
    if j > 0 {
      assert Escape(k) == [k[0]] + Escape(k[1..]);
      hide Escape;
      CutAfterFirst(Escape(k), k[0], Escape(k[1..]), j);
      CutAfterFirst(k, k[0], k[1..], j);
      StartOfEscape(k[1..], j - 1);
    }
  }

  lemma {:induction false} EscapeGrows(k: string)
    ensures |k| <= |Escape(k)|
    ensures '/' !in Escape(k) && '\\' !in Escape(k)
  {
    if k != "" {
      EscapeGrows(k[1..]);
    }
  }

  /** The second and third character of an escaped text that starts with a plain one, as far as an escape
      sequence could tell. */
  lemma SecondAndThird(k: string)
    requires k != "" && k[0] != '/' && k[0] != '\\'
    ensures |Escape(k)| >= |k| && Escape(k)[0] == k[0]
    ensures |k| == 1 ==> |Escape(k)| == 1
    ensures |k| > 1 ==> |Escape(k)| > 1 && Escape(k)[1] == Code(k[1])[0]
    ensures |k| == 2 && k[1] != '/' && k[1] != '\\' ==> |Escape(k)| == 2
    ensures |k| > 2 && k[1] != '/' && k[1] != '\\' ==> |Escape(k)| > 2 && Escape(k)[2] == Code(k[2])[0]
  {
    EscapeGrows(k);
    EscapeStep(k);
    if |k| > 1 {
      EscapeStep(k[1..]);
      if |k| > 2 {
        EscapeStep(k[1..][1..]);
      }
    }
  }

  lemma EscapeStep(k: string)
    requires k != ""
    ensures Escape(k) == Code(k[0]) + Escape(k[1..])
  {
  }

  /** Escaping neither makes nor hides an escape sequence that starts with a plain character. */
  lemma EscapedStart(k: string)
    requires k != "" && k[0] != '/' && k[0] != '\\'
    ensures ("%2F" <= Escape(k) <==> "%2F" <= k) && ("%5C" <= Escape(k) <==> "%5C" <= k)
    ensures Escaped(k) ==> Escape(k)[3..] == Escape(k[3..])
  {
    SecondAndThird(k);
    if Escaped(k) {
      StartOfEscape(k, 3);
    }
    hide Escape;
  }

  /** Escaping is invisible to unescaping. */
  lemma {:induction false} UnescapeEscape(k: string)
    ensures Unescape(Escape(k)) == Unescape(k)
    decreases |k|
  {
    if k == "" {
    } else if k[0] == '/' || k[0] == '\\' {
      UnescapeCode(k[0], Escape(k[1..]));
      UnescapeEscape(k[1..]);
    } else {
      EscapedStart(k);
      if Escaped(k) {
        UnescapeEscape(k[3..]);
      } else {
        UnescapeEscape(k[1..]);
        assert Escape(k)[1..] == Escape(k[1..]);
      }
    }
  }

  lemma {:induction false} UnescapeShrinks(s: string)
    ensures |Unescape(s)| <= |s|
    ensures Unescape(s) == s <==> |Unescape(s)| == |s|
    ensures |Unescape(s)| == |s| <==> !HasEscape(s)
    decreases |s|
  {
    if s != "" {
      HasEscapeUnfold(s);
      if Escaped(s) {
        UnescapeShrinks(s[3..]);
      } else {
        UnescapeShrinks(s[1..]);
        assert s == [s[0]] + s[1..];
      }
    }
  }

  /** A key survives escaping and unescaping exactly when it holds no literal escape sequence. */
  lemma RoundTripIff(k: string)
    ensures Unescape(Escape(k)) == k <==> !HasEscape(k)
  {
    UnescapeEscape(k);
    UnescapeShrinks(k);
  }

  // ----- Validation -----

  predicate IsControl(c: char) {
    c < ' ' || '\U{7f}' <= c <= '\U{9f}'
  }

  function Upper(c: char): char {
    if 'a' <= c <= 'z' then 'A' + (c - 'a') else c
  }

  function UpperAll(s: string): string {
    seq(|s|, i requires 0 <= i < |s| => Upper(s[i]))
  }

  /** validateRecordPathSegment (away from Windows). */
  predicate ValidSegment(id: string) {
    && id != "" && id != "." && id != ".."
    && (forall i :: 0 <= i < |id| ==> !IsControl(id[i]))
    && !HasEscape(UpperAll(id))
  }

  lemma UpperKeepsEscapes(k: string)
    requires HasEscape(k)
    ensures HasEscape(UpperAll(k))
  {
    var i :| 0 <= i < |k| && Escaped(k[i..]);
    var u := UpperAll(k);
    assert u[i..][0] == Upper(k[i..][0]) && u[i..][1] == Upper(k[i..][1]) && u[i..][2] == Upper(k[i..][2]);
    assert Escaped(u[i..]);
  }

  /** The check is on upper case, so it is stricter than the round trip needs. */
  lemma ValidSegmentsRoundTrip(k: string)
    requires ValidSegment(k)
    ensures Unescape(Escape(k)) == k
  {
    if HasEscape(k) {
      UpperKeepsEscapes(k);
    }
    RoundTripIff(k);
  }

  /** Two different valid keys never share a file name, and no file name is a directory name. */
  lemma EscapedKeysDiffer(k1: string, k2: string)
    requires ValidSegment(k1) && ValidSegment(k2) && Escape(k1) == Escape(k2)
    ensures k1 == k2
  {
    ValidSegmentsRoundTrip(k1);
    ValidSegmentsRoundTrip(k2);
  }

  // ----- Paths as directory chains -----

  type Dir = seq<string>

  predicate Plain(segment: string) {
    segment != "" && segment != "." && segment != ".." && '/' !in segment
  }

  function Split(s: string): (r: seq<string>)
    ensures |r| > 0
  {
    if s == "" then [""]
    else
      var rest := Split(s[1..]);
      if s[0] == '/' then [""] + rest else [[s[0]] + rest[0]] + rest[1..]
  }

  /** filepath.Join onto a clean absolute directory. */
  function Walk(dir: Dir, segments: seq<string>): Dir
    decreases |segments|
  {
    if segments == [] then dir
    else
      var s := segments[0];
      Walk(if s == "" || s == "." then dir
           else if s == ".." then (if dir == [] then dir else dir[..|dir| - 1])
           else dir + [s],
           segments[1..])
  }

  function Kept(segments: seq<string>): seq<string> {
    if segments == [] then []
    else (if segments[0] == "" || segments[0] == "." then [] else [segments[0]]) + Kept(segments[1..])
  }

  /** Without "..", joining appends what is left of the segments. */
  lemma {:induction false} WalkAppends(dir: Dir, segments: seq<string>)
    requires ".." !in segments
    ensures Walk(dir, segments) == dir + Kept(segments)
    decreases |segments|
  {
    if segments != [] {
      var s := segments[0];
      assert s in segments;
      WalkAppends(if s == "" || s == "." then dir else dir + [s], segments[1..]);
      assert (dir + [s]) + Kept(segments[1..]) == dir + ([s] + Kept(segments[1..]));
    }
  }

  /** requireContainedPath: strictly inside. */
  predicate Contained(dir: Dir, path: Dir) {
    dir < path
  }

  // ----- Templates -----

  const KEY := "{key}"

  /** strings.ReplaceAll of the placeholder. */
  function Expand(template: string, e: string): string
    decreases |template|
  {
    if template == "" then ""
    else if KEY <= template then e + Expand(template[5..], e)
    else [template[0]] + Expand(template[1..], e)
  }

  predicate HasKey(template: string)
    decreases |template|
  {
    template != "" && (KEY <= template || HasKey(template[1..]))
  }

  lemma SplitChar(s: string)
    requires s != "" && s[0] != '/'
    ensures Split(s) == [[s[0]] + Split(s[1..])[0]] + Split(s[1..])[1..]
  {
  }

  lemma FirstThenRest(e: string, x: string)
    requires e != ""
    ensures e + x != "" && (e + x)[0] == e[0] && (e + x)[1..] == e[1..] + x && [e[0]] + (e[1..] + x) == e + x
  {
  }

  lemma {:induction false} SplitPrepend(e: string, s: string)
    requires '/' !in e
    ensures Split(e + s) == [e + Split(s)[0]] + Split(s)[1..]
  {
    if e == "" {
      assert e + s == s && "" + Split(s)[0] == Split(s)[0];
    } else {
      hide Split;
      SplitPrepend(e[1..], s);
      FirstThenRest(e, s);
      FirstThenRest(e, Split(s)[0]);
      SplitChar(e + s);
    }
  }

  function ExpandEach(segments: seq<string>, e: string): seq<string> {
    seq(|segments|, i requires 0 <= i < |segments| => Expand(segments[i], e))
  }

  /** Text put before the first segment. */
  lemma ExpandFirst(x: string, y: string, segments: seq<string>, e: string)
    requires |segments| > 0 && Expand(x + segments[0], e) == y + Expand(segments[0], e)
    ensures ExpandEach([x + segments[0]] + segments[1..], e) ==
            [y + ExpandEach(segments, e)[0]] + ExpandEach(segments, e)[1..]
  {
  }

  lemma ExpandKey(s: string, e: string)
    ensures Expand(KEY + s, e) == e + Expand(s, e)
  {
    assert (KEY + s)[5..] == s;
  }

  lemma ExpandChar(c: char, s: string, e: string)
    requires !(KEY <= [c] + s)
    ensures Expand([c] + s, e) == [c] + Expand(s, e)
  {
    assert ([c] + s)[1..] == s;
  }

  /** The placeholder never straddles a separator and an escaped key adds none, so expansion works
      segment by segment. */
  lemma {:induction false} SplitExpand(t: string, e: string)
    requires '/' !in e
    ensures Split(Expand(t, e)) == ExpandEach(Split(t), e)
    decreases |t|
  {
    hide ExpandEach;
    if t == "" {
      SplitExpandEmpty(e);
    } else if KEY <= t {
      SplitExpand(t[5..], e);
      hide Expand, Split;
      assert t == KEY + t[5..];
      ExpandKey(t[5..], e);
      SplitPrepend(KEY, t[5..]);
      SplitPrepend(e, Expand(t[5..], e));
      ExpandKey(Split(t[5..])[0], e);
      ExpandFirst(KEY, e, Split(t[5..]), e);
    } else {
      SplitExpand(t[1..], e);
      assert t == [t[0]] + t[1..];
      if t[0] == '/' {
        hide Expand, Split;
        ExpandChar('/', t[1..], e);
        SplitSlash(t[1..]);
        SplitSlash(Expand(t[1..], e));
        ExpandSlash(Split(t[1..]), e);
      } else {
        FirstSegmentStart(t);
        hide Expand, Split;
        ExpandChar(t[0], t[1..], e);
        SplitPrepend([t[0]], t[1..]);
        SplitPrepend([t[0]], Expand(t[1..], e));
        assert !(KEY <= Split(t)[0]);
        ExpandChar(t[0], Split(t[1..])[0], e);
        ExpandFirst([t[0]], [t[0]], Split(t[1..]), e);
      }
    }
  }

  lemma SplitExpandEmpty(e: string)
    ensures Split(Expand("", e)) == ExpandEach(Split(""), e)
  {
    assert Split("") == [""] && Expand("", e) == "";
  }

  lemma ExpandSlash(segments: seq<string>, e: string)
    ensures ExpandEach([""] + segments, e) == [""] + ExpandEach(segments, e)
  {
    assert Expand("", e) == "";
  }

  lemma SplitSlash(s: string)
    ensures Split("/" + s) == [""] + Split(s)
  {
    assert ("/" + s)[1..] == s;
  }

  /** The first segment is the start of the text. */
  lemma {:induction false} FirstSegmentStart(t: string)
    ensures Split(t)[0] <= t
  {
    if t != "" {
      FirstSegmentStart(t[1..]);
      assert t == [t[0]] + t[1..];
    }
  }

  // ----- Resolution -----

  /** resolveRecordPath; base is the records sub-directory. */
  function RecordPath(dir: Dir, base: string, template: string, key: string): Dir {
    Walk(dir, Split(base) + Split(Expand(template, Escape(key))))
  }

  /** validateRecordFileKey. */
  predicate ValidKey(dir: Dir, base: string, template: string, key: string) {
    HasKey(template) ==> ValidSegment(key) && Contained(dir, RecordPath(dir, base, template, key))
  }

  lemma {:induction false} ExpandWithoutKey(t: string, e: string)
    requires !HasKey(t)
    ensures Expand(t, e) == t
  {
    if t != "" {
      ExpandWithoutKey(t[1..], e);
      assert t == [t[0]] + t[1..];
    }
  }

  lemma {:induction false} ExpandContains(t: string, e: string)
    requires HasKey(t)
    ensures exists i :: 0 <= i <= |Expand(t, e)| && e <= Expand(t, e)[i..]
    decreases |t|
  {
    var x := Expand(t, e);
    if KEY <= t {
      assert x[0..] == x;
      assert e <= x[0..];
    } else {
      ExpandContains(t[1..], e);
      var i :| 0 <= i <= |Expand(t[1..], e)| && e <= Expand(t[1..], e)[i..];
      assert x[i + 1..] == Expand(t[1..], e)[i..];
    }
  }

  /** A segment made from a valid key is kept by every clean-up. */
  lemma KeySegmentIsKept(t: string, k: string)
    requires HasKey(t) && ValidSegment(k)
    ensures var s := Expand(t, Escape(k)); s != "" && s != "." && s != ".."
  {
    var e := Escape(k);
    var s := Expand(t, e);
    ExpandContains(t, e);
    var i :| 0 <= i <= |s| && e <= s[i..];
    EscapeGrows(k);
    if s == "." || s == ".." {
      PartOfDots(s, i, e);
      OnlyDots(k);
    }
  }

  lemma PartOfDots(s: string, i: nat, e: string)
    requires (s == "." || s == "..") && i <= |s| && e <= s[i..]
    ensures |e| <= 2 && forall j :: 0 <= j < |e| ==> e[j] == '.'
  {
    assert forall j :: 0 <= j < |e| ==> e[j] == s[i + j];
  }

  /** A key whose file name is one or two dots is one or two dots. */
  lemma OnlyDots(k: string)
    requires 0 < |Escape(k)| <= 2 && forall j :: 0 <= j < |Escape(k)| ==> Escape(k)[j] == '.'
    ensures k == "." || k == ".."
  {
    EscapeGrows(k);
    assert Escape(k)[0] == Code(k[0])[0];
    assert Escape(k)[1..] == Escape(k[1..]);
    if |k| == 2 {
      assert Escape(k[1..])[0] == Code(k[1])[0];
    }
  }

  /** Positions: what is kept of two expansions of one template agrees, so the expansions do. */
  lemma {:induction false} KeptExpansionsDiffer(segments: seq<string>, k1: string, k2: string, n: nat)
    requires n < |segments| && HasKey(segments[n]) && ValidSegment(k1) && ValidSegment(k2)
    requires Kept(ExpandEach(segments, Escape(k1))) == Kept(ExpandEach(segments, Escape(k2)))
    ensures Expand(segments[n], Escape(k1)) == Expand(segments[n], Escape(k2))
    decreases |segments|
  {
    hide Kept, ExpandEach, Expand, HasKey, Escape, ValidSegment;
    var e1, e2 := Escape(k1), Escape(k2);
    KeptUnfold(segments, e1);
    KeptUnfold(segments, e2);
    var a, b := Kept(ExpandEach(segments[1..], e1)), Kept(ExpandEach(segments[1..], e2));
    if HasKey(segments[0]) {
      KeySegmentIsKept(segments[0], k1);
      KeySegmentIsKept(segments[0], k2);
      SameCons(Expand(segments[0], e1), a, Expand(segments[0], e2), b);
    } else {
      ExpandWithoutKey(segments[0], e1);
      ExpandWithoutKey(segments[0], e2);
      if segments[0] != "" && segments[0] != "." {
        SameCons(segments[0], a, segments[0], b);
      }
    }
    if n > 0 {
      KeptExpansionsDiffer(segments[1..], k1, k2, n - 1);
    }
  }

  lemma SameCons(x: string, a: seq<string>, y: string, b: seq<string>)
    requires [x] + a == [y] + b
    ensures x == y && a == b
  {
    assert x == ([x] + a)[0] && y == ([y] + b)[0];
    assert a == ([x] + a)[1..] && b == ([y] + b)[1..];
  }

  lemma KeptUnfold(segments: seq<string>, e: string)
    requires segments != []
    ensures var x := Expand(segments[0], e);
            var rest := Kept(ExpandEach(segments[1..], e));
            Kept(ExpandEach(segments, e)) == if x == "" || x == "." then rest else [x] + rest
  {
    assert ExpandEach(segments, e)[1..] == ExpandEach(segments[1..], e);
    assert [] + Kept(ExpandEach(segments[1..], e)) == Kept(ExpandEach(segments[1..], e));
  }

  /** A longer key makes a longer name. */
  lemma {:induction false} ExpandGrows(t: string, e1: string, e2: string)
    requires |e1| <= |e2|
    ensures |Expand(t, e1)| <= |Expand(t, e2)|
    ensures |e1| < |e2| && HasKey(t) ==> |Expand(t, e1)| < |Expand(t, e2)|
    decreases |t|
  {
    if t != "" {
      ExpandGrows(if KEY <= t then t[5..] else t[1..], e1, e2);
    }
  }

  lemma {:induction false} SameLengthExpansions(t: string, e1: string, e2: string)
    requires HasKey(t) && |e1| == |e2| && Expand(t, e1) == Expand(t, e2)
    ensures e1 == e2
    decreases |t|
  {
    if KEY <= t {
      assert Expand(t, e1)[..|e1|] == e1;
      assert Expand(t, e2)[..|e2|] == e2;
    } else {
      assert Expand(t, e1)[1..] == Expand(t[1..], e1);
      assert Expand(t, e2)[1..] == Expand(t[1..], e2);
      SameLengthExpansions(t[1..], e1, e2);
    }
  }

  lemma ExpansionsDiffer(t: string, e1: string, e2: string)
    requires HasKey(t) && Expand(t, e1) == Expand(t, e2)
    ensures e1 == e2
  {
    if |e1| <= |e2| {
      ExpandGrows(t, e1, e2);
    } else {
      ExpandGrows(t, e2, e1);
    }
    SameLengthExpansions(t, e1, e2);
  }

  lemma {:induction false} KeyIsInSomeSegment(t: string)
    requires HasKey(t)
    ensures exists n :: 0 <= n < |Split(t)| && HasKey(Split(t)[n])
    decreases |t|
  {
    if KEY <= t {
      assert t == KEY + t[5..];
      SplitPrepend(KEY, t[5..]);
      assert KEY <= Split(t)[0];
      assert HasKey(Split(t)[0]);
    } else {
      KeyIsInSomeSegment(t[1..]);
      var r := Split(t[1..]);
      var n :| 0 <= n < |r| && HasKey(r[n]);
      if t[0] == '/' {
        assert Split(t)[n + 1] == r[n];
      } else if n > 0 {
        assert Split(t)[n] == r[n];
      } else {
        assert Split(t)[0] == [t[0]] + r[0];
        assert ([t[0]] + r[0])[1..] == r[0];
      }
    }
  }

  lemma Reassociate<T>(x: seq<T>, y: seq<T>, z: seq<T>)
    ensures x + (y + z) == (x + y) + z
  {
  }

  lemma KeptStep(a: seq<string>)
    requires a != []
    ensures Kept(a) == if a[0] == "" || a[0] == "." then Kept(a[1..]) else [a[0]] + Kept(a[1..])
  {
    assert [] + Kept(a[1..]) == Kept(a[1..]);
  }

  lemma {:induction false} KeptOf(a: seq<string>, b: seq<string>)
    ensures Kept(a + b) == Kept(a) + Kept(b)
  {
    if a == [] {
      assert a + b == b;
    } else {
      hide Kept;
      KeptOf(a[1..], b);
      assert (a + b)[1..] == a[1..] + b;
      KeptStep(a);
      KeptStep(a + b);
      Reassociate([a[0]], Kept(a[1..]), Kept(b));
    }
  }

  /** A template whose own segments never climb. */
  predicate Grounded(base: string, template: string) {
    ".." !in Split(base) && ".." !in Split(template)
  }

  /** A record path lies under the collection and the records directory: joining only appends. */
  lemma RecordPathAppends(dir: Dir, base: string, template: string, key: string)
    requires Grounded(base, template) && (HasKey(template) ==> ValidSegment(key))
    ensures RecordPath(dir, base, template, key) ==
            dir + Kept(Split(base)) + Kept(ExpandEach(Split(template), Escape(key)))
  {
    EscapeGrows(key);
    var e := Escape(key);
    SplitExpand(template, e);
    var expanded := ExpandEach(Split(template), e);
    forall n | 0 <= n < |expanded|
      ensures expanded[n] != ".."
    {
      var t := Split(template)[n];
      if HasKey(t) {
        KeyInSegment(template, n);
        KeySegmentIsKept(t, key);
      } else {
        ExpandWithoutKey(t, e);
        assert t in Split(template);
      }
    }
    WalkAppends(dir, Split(base) + expanded);
    KeptOf(Split(base), expanded);
  }

  /** A placeholder in a segment is one of the template. */
  lemma {:induction false} KeyInSegment(t: string, n: nat)
    requires n < |Split(t)| && HasKey(Split(t)[n])
    ensures HasKey(t)
    decreases |t|
  {
    if t != "" && !(KEY <= t) {
      var r := Split(t[1..]);
      if t[0] == '/' {
        assert n > 0;
        KeyInSegment(t[1..], n - 1);
      } else if n > 0 {
        KeyInSegment(t[1..], n);
      } else {
        FirstSegmentStart(t);
        assert !(KEY <= Split(t)[0]);
        assert Split(t)[0][1..] == r[0];
        KeyInSegment(t[1..], 0);
      }
    }
  }

  /** Every valid key of a collection whose template names it gets a path strictly inside the collection
      directory, and different keys get different paths. */
  lemma DistinctKeysDistinctPaths(dir: Dir, base: string, template: string, k1: string, k2: string)
    requires Grounded(base, template) && HasKey(template) && ValidSegment(k1) && ValidSegment(k2)
    ensures Contained(dir, RecordPath(dir, base, template, k1))
    ensures RecordPath(dir, base, template, k1) == RecordPath(dir, base, template, k2) ==> k1 == k2
  {
    RecordPathAppends(dir, base, template, k1);
    RecordPathAppends(dir, base, template, k2);
    KeyIsInSomeSegment(template);
    var segments := Split(template);
    var n :| 0 <= n < |segments| && HasKey(segments[n]);
    KeptKey(segments, k1, n);
    var under := dir + Kept(Split(base));
    var a, b := Kept(ExpandEach(segments, Escape(k1))), Kept(ExpandEach(segments, Escape(k2)));
    if under + a == under + b {
      assert a == (under + a)[|under|..] && b == (under + b)[|under|..];
      KeptExpansionsDiffer(segments, k1, k2, n);
      ExpansionsDiffer(segments[n], Escape(k1), Escape(k2));
      EscapedKeysDiffer(k1, k2);
    }
  }

  lemma {:induction false} KeptKey(segments: seq<string>, k: string, n: nat)
    requires n < |segments| && HasKey(segments[n]) && ValidSegment(k)
    ensures Kept(ExpandEach(segments, Escape(k))) != []
    decreases |segments|
  {
    hide Kept, ExpandEach, HasKey, ValidSegment, Escape, Expand;
    KeptUnfold(segments, Escape(k));
    if n == 0 {
      KeySegmentIsKept(segments[0], k);
    } else {
      KeptKey(segments[1..], k, n - 1);
    }
  }

  // ----- Exactly which keys share a path -----

  /** A path segment as a template gives it: fixed, or made from the key. */
  datatype Mark = Fixed(text: string) | Keyed(template: string)

  function MarkOf(segment: string): Mark {
    if HasKey(segment) then Keyed(segment) else Fixed(segment)
  }

  function Shown(m: Mark, e: string): string {
    match m
    case Fixed(text) => text
    case Keyed(t) => Expand(t, e)
  }

  function ShownAll(ms: seq<Mark>, e: string): seq<string> {
    seq(|ms|, i requires 0 <= i < |ms| => Shown(ms[i], e))
  }

  function FixedAll(segments: seq<string>): seq<Mark> {
    seq(|segments|, i requires 0 <= i < |segments| => Fixed(segments[i]))
  }

  function MarksOf(segments: seq<string>): seq<Mark> {
    seq(|segments|, i requires 0 <= i < |segments| => MarkOf(segments[i]))
  }

  /** What cleaning leaves: ".." takes away the segment before it, whatever that is. */
  function Remains(stack: seq<Mark>, ms: seq<Mark>): seq<Mark>
    decreases |ms|
  {
    if ms == [] then stack
    else
      var m := ms[0];
      Remains(if m == Fixed("") || m == Fixed(".") then stack
              else if m == Fixed("..") then (if stack == [] then stack else stack[..|stack| - 1])
              else stack + [m],
              ms[1..])
  }

  ghost predicate KeyedOk(ms: seq<Mark>)
  {
    forall i :: 0 <= i < |ms| && ms[i].Keyed? ==> HasKey(ms[i].template)
  }

  /** Cleaning does the same to every valid key. */
  lemma {:induction false} WalkRemains(stack: seq<Mark>, ms: seq<Mark>, key: string)
    requires ValidSegment(key) && KeyedOk(ms)
    ensures Walk(ShownAll(stack, Escape(key)), ShownAll(ms, Escape(key))) == ShownAll(Remains(stack, ms), Escape(key))
    decreases |ms|
  {
    hide Expand, Escape, HasKey, ValidSegment;
    var e := Escape(key);
    if ms != [] {
      var m := ms[0];
      if m.Keyed? {
        KeySegmentIsKept(m.template, key);
      }
      var next := if m == Fixed("") || m == Fixed(".") then stack
                  else if m == Fixed("..") then (if stack == [] then stack else stack[..|stack| - 1])
                  else stack + [m];
      assert ShownAll(ms, e)[1..] == ShownAll(ms[1..], e);
      assert ShownAll(stack + [m], e) == ShownAll(stack, e) + [Shown(m, e)];
      if stack != [] {
        assert ShownAll(stack[..|stack| - 1], e) == ShownAll(stack, e)[..|stack| - 1];
      }
      WalkRemains(next, ms[1..], key);
    }
  }

  /** The path of every record, up to the key. */
  function PathMarks(dir: Dir, base: string, template: string): seq<Mark> {
    Remains(FixedAll(dir), FixedAll(Split(base)) + MarksOf(Split(template)))
  }

  lemma ShownTemplate(template: string, e: string)
    requires '/' !in e
    ensures ShownAll(MarksOf(Split(template)), e) == Split(Expand(template, e))
  {
    hide Expand, HasKey, Split;
    SplitExpand(template, e);
    var segments := Split(template);
    forall i | 0 <= i < |segments|
      ensures Shown(MarkOf(segments[i]), e) == Expand(segments[i], e)
    {
      if !HasKey(segments[i]) {
        ExpandWithoutKey(segments[i], e);
      }
    }
  }

  lemma PathIsShown(dir: Dir, base: string, template: string, key: string)
    requires ValidSegment(key)
    ensures RecordPath(dir, base, template, key) == ShownAll(PathMarks(dir, base, template), Escape(key))
  {
    hide Expand, Escape, HasKey, Split, Walk, ValidSegment, Remains;
    var e := Escape(key);
    EscapeGrows(key);
    var b, t := FixedAll(Split(base)), MarksOf(Split(template));
    ShownTemplate(template, e);
    assert ShownAll(b + t, e) == Split(base) + Split(Expand(template, e));
    assert ShownAll(FixedAll(dir), e) == dir;
    WalkRemains(FixedAll(dir), b + t, key);
  }

  lemma {:induction false} RemainsKeyedOk(stack: seq<Mark>, ms: seq<Mark>)
    requires KeyedOk(stack) && KeyedOk(ms)
    ensures KeyedOk(Remains(stack, ms))
    decreases |ms|
  {
    hide HasKey;
    if ms != [] {
      var m := ms[0];
      var next := if m == Fixed("") || m == Fixed(".") then stack
                  else if m == Fixed("..") then (if stack == [] then stack else stack[..|stack| - 1])
                  else stack + [m];
      assert KeyedOk(next) && KeyedOk(ms[1..]);
      RemainsKeyedOk(next, ms[1..]);
    }
  }

  /** For every template, ".." included: two different valid keys share a path exactly when cleaning drops every
      segment that the key is in. */
  lemma KeysCollideIff(dir: Dir, base: string, template: string, k1: string, k2: string)
    requires ValidSegment(k1) && ValidSegment(k2) && k1 != k2
    ensures RecordPath(dir, base, template, k1) == RecordPath(dir, base, template, k2) <==>
            forall i :: 0 <= i < |PathMarks(dir, base, template)| ==> PathMarks(dir, base, template)[i].Fixed?
  {
    hide Expand, Escape, HasKey, Split, ValidSegment, Remains, RecordPath;
    var ms := PathMarks(dir, base, template);
    var e1, e2 := Escape(k1), Escape(k2);
    PathIsShown(dir, base, template, k1);
    PathIsShown(dir, base, template, k2);
    RemainsKeyedOk(FixedAll(dir), FixedAll(Split(base)) + MarksOf(Split(template)));
    if forall i :: 0 <= i < |ms| ==> ms[i].Fixed? {
      assert ShownAll(ms, e1) == ShownAll(ms, e2);
    } else {
      var i :| 0 <= i < |ms| && ms[i].Keyed?;
      if ShownAll(ms, e1) == ShownAll(ms, e2) {
        assert Shown(ms[i], e1) == ShownAll(ms, e1)[i] == Shown(ms[i], e2);
        ExpansionsDiffer(ms[i].template, e1, e2);
        EscapedKeysDiffer(k1, k2);
      }
    }
  }

  /** Without "..", the containment check of validateRecordFileKey never decides: a key is accepted exactly when it
      can name a file. */
  lemma ValidKeyIff(dir: Dir, base: string, template: string, key: string)
    requires Grounded(base, template)
    ensures ValidKey(dir, base, template, key) <==> (HasKey(template) ==> ValidSegment(key))
  {
    if HasKey(template) && ValidSegment(key) {
      DistinctKeysDistinctPaths(dir, base, template, key, key);
    }
  }

  /** The text holds %2F or %5C, in either case. */
  predicate SpellsSeparator(id: string, i: nat) {
    && i + 2 < |id| && id[i] == '%'
    && ((id[i + 1] == '2' && (id[i + 2] == 'F' || id[i + 2] == 'f')) || (id[i + 1] == '5' && (id[i + 2] == 'C' || id[i + 2] == 'c')))
  }

  lemma SpelledIff(id: string, i: nat)
    requires i < |id|
    ensures Escaped(UpperAll(id)[i..]) <==> SpellsSeparator(id, i)
  {
    var u := UpperAll(id)[i..];
    assert |u| == |id| - i && forall k :: 0 <= k < |u| ==> u[k] == Upper(id[i + k]);
    if SpellsSeparator(id, i) {
      assert u[0] == Upper(id[i]) && u[1] == Upper(id[i + 1]) && u[2] == Upper(id[i + 2]);
      assert u[..3] == "%2F" || u[..3] == "%5C";
    }
    if Escaped(u) {
      assert u[0] == '%' && u[1] == Upper(id[i + 1]) && u[2] == Upper(id[i + 2]);
      UpperIs(id[i]);
      UpperIs(id[i + 1]);
      UpperIs(id[i + 2]);
    }
  }

  lemma UpperIs(c: char)
    ensures Upper(c) == 'F' <==> c == 'F' || c == 'f'
    ensures Upper(c) == 'C' <==> c == 'C' || c == 'c'
    ensures !('A' <= Upper(c) <= 'Z') ==> Upper(c) == c
  {
  }

  /** An id can name a file exactly when it is not empty, not a dot or two, has no control characters, and spells no
      separator. */
  lemma ValidSegmentIff(id: string)
    ensures ValidSegment(id) <==>
            && |id| > 0 && id != "." && id != ".."
            && forall i :: 0 <= i < |id| ==> !SpellsSeparator(id, i) && !(id[i] < ' ' || '\U{7f}' <= id[i] <= '\U{9f}')
  {
    hide Escaped, SpellsSeparator, UpperAll;
    UpperLength(id);
    forall i | 0 <= i < |id|
      ensures Escaped(UpperAll(id)[i..]) <==> SpellsSeparator(id, i)
    {
      SpelledIff(id, i);
    }
  }

  lemma UpperLength(id: string)
    ensures |UpperAll(id)| == |id|
  {
  }
}
