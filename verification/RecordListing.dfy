/** Listing a collection (query.go): the key of a record is recovered from the path of its file by a regular
    expression made from the name template, for any number of placeholders. */
module RecordListing {
  import opened Common
  import opened RecordPaths

  /** The literal text between placeholders. */
  function Pieces(t: string): (ps: seq<string>)
    ensures |ps| > 0
    decreases |t|
  {
    if t == "" then [""]
    else if KEY <= t then [""] + Pieces(t[5..])
    else
      var rest := Pieces(t[1..]);
      [[t[0]] + rest[0]] + rest[1..]
  }

  /** Pieces with e in between. */
  function Woven(ps: seq<string>, e: string): string
    requires ps != []
  {
    if |ps| == 1 then ps[0] else ps[0] + (e + Woven(ps[1..], e))
  }

  lemma {:induction false} ExpandIsWoven(t: string, e: string)
    ensures Expand(t, e) == Woven(Pieces(t), e)
    decreases |t|
  {
    if t == "" {
    } else if KEY <= t {
      ExpandIsWoven(t[5..], e);
      assert ([""] + Pieces(t[5..]))[1..] == Pieces(t[5..]);
      assert "" + (e + Woven(Pieces(t[5..]), e)) == e + Woven(Pieces(t[5..]), e);
    } else {
      ExpandIsWoven(t[1..], e);
      WovenPrepend([t[0]], Pieces(t[1..]), e);
    }
  }

  lemma WovenPrepend(x: string, ps: seq<string>, e: string)
    requires ps != []
    ensures Woven([x + ps[0]] + ps[1..], e) == x + Woven(ps, e)
  {
    var qs := [x + ps[0]] + ps[1..];
    assert qs[1..] == ps[1..];
    if |ps| > 1 {
      Reassociate(x, ps[0], e + Woven(ps[1..], e));
    }
  }

  lemma {:induction false} PiecesCount(t: string)
    ensures |Pieces(t)| > 1 <==> HasKey(t)
    decreases |t|
  {
    if t != "" && !(KEY <= t) {
      PiecesCount(t[1..]);
    }
  }

  lemma {:induction false} PiecesHaveNoNewline(t: string)
    requires '\n' !in t
    ensures forall i :: 0 <= i < |Pieces(t)| ==> '\n' !in Pieces(t)[i]
    decreases |t|
  {
    if t != "" {
      PiecesHaveNoNewline(if KEY <= t then t[5..] else t[1..]);
    }
  }

  /** The part of the pattern after the first group: literal, then ".*" and the next literal, and so on to the end. */
  predicate Matches(ps: seq<string>, s: string)
    requires ps != []
    decreases |ps|
  {
    if |ps| == 1 then s == ps[0]
    else
      ps[0] <= s
      && exists k :: |ps[0]| <= k <= |s| && '\n' !in s[|ps[0]|..k] && Matches(ps[1..], s[k..])
  }

  /** The lazy first group: the shortest length from j on after which the rest matches. */
  function Shortest(ps: seq<string>, s: string, j: nat): (r: Option<nat>)
    requires ps != [] && j <= |s|
    ensures r.Some? ==> j <= r.value <= |s| && Matches(ps, s[r.value..]) && '\n' !in s[..r.value]
    ensures r.Some? ==> forall i :: j <= i < r.value ==> !Matches(ps, s[i..])
    ensures r.None? ==> forall i :: j <= i <= |s| && '\n' !in s[..i] ==> !Matches(ps, s[i..])
    decreases |s| - j
  {
    if '\n' in s[..j] then
      NewlineStays(s, j);
      None
    else if Matches(ps, s[j..]) then Some(j)
    else if j == |s| then None
    else Shortest(ps, s, j + 1)
  }

  lemma NewlineStays(s: string, j: nat)
    requires j <= |s| && '\n' in s[..j]
    ensures forall i :: j <= i <= |s| ==> '\n' in s[..i]
  {
    var k :| 0 <= k < j && s[..j][k] == '\n';
    forall i | j <= i <= |s|
      ensures '\n' in s[..i]
    {
      assert s[..i][k] == '\n';
    }
  }

  /** buildKeyExtractor for a template with a placeholder; a path that does not match gives the empty key. */
  function ExtractKey(template: string, rel: string): string
    requires HasKey(template)
  {
    PiecesCount(template);
    var ps := Pieces(template);
    if !(ps[0] <= rel) then ""
    else
      var rest := rel[|ps[0]|..];
      var j := Shortest(ps[1..], rest, 0);
      if j.None? then "" else Unescape(rest[..j.value])
  }

  // ----- What was expanded is recovered -----

  lemma CutAt(a: string, b: string)
    ensures (a + b)[|a|..] == b && (a + b)[..|a|] == a && a <= a + b
  {
  }

  lemma {:induction false} WovenMatches(ps: seq<string>, e: string)
    requires ps != [] && '\n' !in e
    ensures Matches(ps, Woven(ps, e))
    decreases |ps|
  {
    if |ps| > 1 {
      var rest := Woven(ps[1..], e);
      var s := ps[0] + (e + rest);
      WovenMatches(ps[1..], e);
      var k := |ps[0]| + |e|;
      Reassociate(ps[0], e, rest);
      CutAt(ps[0] + e, rest);
      assert s[|ps[0]|..k] == e;
      assert s[k..] == rest;
    }
  }

  /** The text of the next literal comes up before the key is over. */
  predicate ComesUpEarly(ps: seq<string>, e: string)
    requires |ps| > 1
  {
    |ps| > 2 && exists j :: 0 <= j < |e| && ps[1] <= (e + Woven(ps[1..], e))[j..]
  }

  /** If it does, the rest of the pattern matches from there: ".*" swallows what is in between. */
  lemma EarlyMatches(ps: seq<string>, e: string, j: nat)
    requires |ps| > 2 && '\n' !in e && '\n' !in ps[1] && j < |e| && ps[1] <= (e + Woven(ps[1..], e))[j..]
    ensures Matches(ps[1..], (e + Woven(ps[1..], e))[j..])
  {
    var p, rest := ps[1], Woven(ps[1..][1..], e);
    var all := e + Woven(ps[1..], e);
    var s := all[j..];
    WovenMatches(ps[1..][1..], e);
    assert Woven(ps[1..], e) == p + (e + rest);
    var before := e + (p + e);
    assert all == before + rest by {
      Reassociate(p, e, rest);
      Reassociate(e, p + e, rest);
    }
    var k := |before| - j;
    SliceOf(before, rest, j, |p|);
  }

  lemma SliceOf(before: string, rest: string, j: nat, n: nat)
    requires '\n' !in before && j + n <= |before|
    ensures var s := (before + rest)[j..];
            && s[|before| - j..] == rest && '\n' !in s[n..|before| - j]
  {
    var s := (before + rest)[j..];
    assert s[n..|before| - j] == before[j + n..];
  }

  /** A literal that is the last one matches only at the very end. */
  lemma NotEarlyNoMatch(ps: seq<string>, e: string, j: nat)
    requires |ps| > 1 && j < |e| && Matches(ps[1..], (e + Woven(ps[1..], e))[j..])
    ensures ComesUpEarly(ps, e)
  {
    assert ps[1..][0] == ps[1];
  }

  /** A shorter part of a file name never gives the key. */
  lemma {:induction false} PrefixIsAnotherKey(key: string, x: string)
    requires !HasEscape(key) && x < Escape(key)
    ensures Unescape(x) != key
    decreases |key|
  {
    if key != "" && x != "" {
      HasEscapeUnfold(key);
      var e := Escape(key);
      var rest := Escape(key[1..]);
      if key[0] == '/' || key[0] == '\\' {
        var code := Code(key[0]);
        assert e == code + rest;
        if |x| < 3 {
          assert x[0] == '%' && Unescape(x)[0] == '%';
        } else {
          assert x[..3] == code && x == code + x[3..];
          UnescapeCode(key[0], x[3..]);
          TailIsPrefix(code, rest, x);
          PrefixIsAnotherKey(key[1..], x[3..]);
        }
      } else {
        assert e == [key[0]] + rest;
        EscapedStart(key);
        EscapedPrefix(x, e);
        TailIsPrefix([key[0]], rest, x);
        PrefixIsAnotherKey(key[1..], x[1..]);
        assert Unescape(x) == [x[0]] + Unescape(x[1..]);
      }
    }
  }

  lemma EscapedPrefix(x: string, e: string)
    requires x <= e
    ensures "%2F" <= x ==> "%2F" <= e
    ensures "%5C" <= x ==> "%5C" <= e
  {
    assert forall i :: 0 <= i < |x| ==> x[i] == e[i];
  }

  lemma TailIsPrefix(a: string, rest: string, x: string)
    requires |a| <= |x| && x < a + rest
    ensures x[|a|..] < rest && x[..|a|] == a
  {
    assert forall i :: 0 <= i < |x| ==> x[i] == (a + rest)[i];
    assert forall i :: 0 <= i < |x| - |a| ==> x[|a|..][i] == rest[i];
  }

  lemma {:induction false} EscapeHasNoNewline(k: string)
    requires forall i :: 0 <= i < |k| ==> !IsControl(k[i])
    ensures '\n' !in Escape(k)
  {
    if k != "" {
      EscapeHasNoNewline(k[1..]);
    }
  }

  /** The extractor gives back the key that a name was made for exactly when the template has one placeholder, or the
      text after the first one does not come up before the key is over. */
  lemma ListingRecoversKeyIff(template: string, key: string)
    requires HasKey(template) && '\n' !in template && ValidSegment(key)
    ensures |Pieces(template)| > 1
    ensures ExtractKey(template, Expand(template, Escape(key))) == key <==> !ComesUpEarly(Pieces(template), Escape(key))
  {
    hide Escape, Unescape, Expand, HasKey, Woven, Pieces, Matches;
    PiecesCount(template);
    var ps, e := Pieces(template), Escape(key);
    ExpandIsWoven(template, e);
    EscapeHasNoNewline(key);
    PiecesHaveNoNewline(template);
    WovenStep(ps, e);
    var w := Woven(ps[1..], e);
    var rest := e + w;
    CutAt(ps[0], rest);
    CutAt(e, w);
    WovenMatches(ps[1..], e);
    var found := Shortest(ps[1..], rest, 0);
    assert rest[..|e|] == e;
    assert found.Some? && found.value <= |e|;
    if found.value < |e| {
      NotEarlyNoMatch(ps, e, found.value);
      assert rest[..found.value] == e[..found.value];
      NoEscapeIn(key);
      PrefixIsAnotherKey(key, e[..found.value]);
    } else {
      ValidSegmentsRoundTrip(key);
      if ComesUpEarly(ps, e) {
        var j :| 0 <= j < |e| && ps[1] <= rest[j..];
        EarlyMatches(ps, e, j);
      }
    }
  }

  lemma WovenStep(ps: seq<string>, e: string)
    requires |ps| > 1
    ensures Woven(ps, e) == ps[0] + (e + Woven(ps[1..], e))
  {
  }

  lemma NoEscapeIn(key: string)
    requires ValidSegment(key)
    ensures !HasEscape(key)
  {
    ValidSegmentsRoundTrip(key);
    RoundTripIff(key);
  }

  /** With one placeholder every valid key is recovered. */
  lemma ListingRecoversKey(template: string, key: string)
    requires |Pieces(template)| == 2 && '\n' !in template && ValidSegment(key)
    ensures HasKey(template) && ExtractKey(template, Expand(template, Escape(key))) == key
  {
    PiecesCount(template);
    ListingRecoversKeyIff(template, key);
  }

  lemma PiecesKey(rest: string)
    ensures Pieces(KEY + rest) == [""] + Pieces(rest) && HasKey(KEY + rest)
  {
    assert (KEY + rest)[5..] == rest && KEY <= KEY + rest;
  }

  lemma PiecesChar(c: char, rest: string)
    requires c != '{'
    ensures Pieces([c] + rest) == [[c] + Pieces(rest)[0]] + Pieces(rest)[1..]
  {
    assert ([c] + rest)[1..] == rest && ([c] + rest)[0] != KEY[0];
  }

  lemma DashIsValid()
    ensures ValidSegment("a-b") && Escape("a-b") == "a-b"
  {
    assert "b"[1..] == "" && "-b"[1..] == "b" && "a-b"[1..] == "-b";
    assert Escape("b") == "b" && Escape("-b") == "-b";
    var u := UpperAll("a-b");
    assert forall i :: 0 <= i < |u| ==> u[i] != '%';
    forall i | 0 <= i < |u|
      ensures !Escaped(u[i..])
    {
      assert u[i..][0] == u[i];
    }
  }

  /** With several it need not be: "{key}-{key}" does not give back the key "a-b". */
  lemma AmbiguousTemplate()
    ensures ValidSegment("a-b") && HasKey("{key}-{key}")
    ensures ExtractKey("{key}-{key}", Expand("{key}-{key}", Escape("a-b"))) != "a-b"
  {
    hide Escape, Unescape, ValidSegment, Pieces, HasKey, ExtractKey, Expand;
    DashIsValid();
    var t, e := "{key}-{key}", "a-b";
    PiecesKey("");
    PiecesEmpty();
    assert KEY + "" == KEY;
    assert Pieces(KEY) == ["", ""];
    PiecesChar('-', KEY);
    assert ['-'] + KEY == "-" + KEY && ['-'] + "" == "-";
    assert Pieces("-" + KEY) == ["-", ""];
    PiecesKey("-" + KEY);
    assert t == KEY + ("-" + KEY);
    var ps := Pieces(t);
    assert ps == ["", "-", ""];
    var w := Woven(ps[1..], e);
    assert e[1] == '-' && (e + w)[1..][0] == (e + w)[1] == e[1];
    assert "-" <= (e + w)[1..];
    ListingRecoversKeyIff(t, e);
  }

  lemma PiecesEmpty()
    ensures Pieces("") == [""]
  {
  }

  // ----- Paths that are not what was expanded -----

  /** What a listing hands to the extractor is what was expanded, when the template is in clean form. */
  lemma {:induction false} CleanTemplateIsKept(segments: seq<string>, key: string)
    requires ValidSegment(key) && forall i :: 0 <= i < |segments| ==> Plain(segments[i])
    ensures Kept(ExpandEach(segments, Escape(key))) == ExpandEach(segments, Escape(key))
    decreases |segments|
  {
    if segments != [] {
      hide Kept, Expand, Escape, HasKey, ExpandEach;
      ExpandEachStep(segments, Escape(key));
      KeptUnfold(segments, Escape(key));
      CleanTemplateIsKept(segments[1..], key);
      if HasKey(segments[0]) {
        KeySegmentIsKept(segments[0], key);
      } else {
        ExpandWithoutKey(segments[0], Escape(key));
      }
    } else {
      assert ExpandEach(segments, Escape(key)) == [];
    }
  }

  lemma ExpandEachStep(segments: seq<string>, e: string)
    requires segments != []
    ensures ExpandEach(segments, e) == [Expand(segments[0], e)] + ExpandEach(segments[1..], e)
  {
  }

  function Join(segments: seq<string>): string
    requires segments != []
  {
    if |segments| == 1 then segments[0] else segments[0] + ("/" + Join(segments[1..]))
  }

  lemma {:induction false} JoinSplit(s: string)
    ensures Join(Split(s)) == s
  {
    if s != "" {
      var r := Split(s[1..]);
      JoinSplit(s[1..]);
      hide Split;
      assert s == [s[0]] + s[1..];
      if s[0] == '/' {
        SplitSlash(s[1..]);
        assert ([""] + r)[1..] == r;
        assert "" + ("/" + s[1..]) == s;
      } else {
        SplitPrepend([s[0]], s[1..]);
        JoinPrepend([s[0]], r);
      }
    }
  }

  lemma JoinPrepend(x: string, r: seq<string>)
    requires r != []
    ensures Join([x + r[0]] + r[1..]) == x + Join(r)
  {
    var t := [x + r[0]] + r[1..];
    assert t[1..] == r[1..];
    if |r| > 1 {
      Reassociate(x, r[0], "/" + Join(r[1..]));
    }
  }

  lemma {:induction false} SplitJoin(segments: seq<string>)
    requires segments != [] && forall i :: 0 <= i < |segments| ==> '/' !in segments[i]
    ensures Split(Join(segments)) == segments
    decreases |segments|
  {
    hide Split;
    if |segments| == 1 {
      SplitPrepend(segments[0], "");
      assert segments[0] + "" == segments[0] && Split("") == [""] by { SplitNothing(); }
      assert segments == [segments[0]];
    } else {
      SplitJoin(segments[1..]);
      var rest := "/" + Join(segments[1..]);
      SplitSlash(Join(segments[1..]));
      SplitPrepend(segments[0], rest);
      assert ([""] + segments[1..])[1..] == segments[1..];
      assert segments[0] + "" == segments[0];
      assert segments == [segments[0]] + segments[1..];
    }
  }

  lemma SplitNothing()
    ensures Split("") == [""]
  {
  }

  /** Splitting a concatenation joins the two segments at the seam. */
  lemma {:induction false} SplitConcat(a: string, b: string)
    ensures Split(a + b) == Seam(Split(a), Split(b))
  {
    hide Split, Seam;
    if a == "" {
      SplitNothing();
      assert a + b == b;
      SeamNothing(Split(b));
    } else {
      SplitConcat(a[1..], b);
      assert a + b == [a[0]] + (a[1..] + b) && a == [a[0]] + a[1..];
      var r := Split(a[1..]);
      if a[0] == '/' {
        SplitSlash(a[1..]);
        SplitSlash(a[1..] + b);
        SeamSlash(r, Split(b));
      } else {
        SplitPrepend([a[0]], a[1..]);
        SplitPrepend([a[0]], a[1..] + b);
        SeamPrepend([a[0]], r, Split(b));
      }
    }
  }

  function Seam(p: seq<string>, q: seq<string>): (r: seq<string>)
    requires p != [] && q != []
    ensures r != []
  {
    p[..|p| - 1] + [p[|p| - 1] + q[0]] + q[1..]
  }

  lemma SeamNothing(q: seq<string>)
    requires q != []
    ensures Seam([""], q) == q
  {
    assert "" + q[0] == q[0];
  }

  lemma SeamSlash(r: seq<string>, q: seq<string>)
    requires r != [] && q != []
    ensures Seam([""] + r, q) == [""] + Seam(r, q)
  {
    assert ([""] + r)[..|r|] == [""] + r[..|r| - 1];
  }

  lemma SeamPrepend(x: string, r: seq<string>, q: seq<string>)
    requires r != [] && q != []
    ensures var m := Seam(r, q);
            Seam([x + r[0]] + r[1..], q) == [x + m[0]] + m[1..]
  {
    if |r| == 1 {
      Reassociate(x, r[0], q[0]);
    }
  }

  /** Segments stay when text is put after or before, except the one at the seam. */
  lemma SegmentsStay(a: string, b: string, seg: string)
    ensures seg in Split(a)[..|Split(a)| - 1] ==> seg in Split(a + b)
    ensures |Split(a)| > 1 && seg in Split(a)[1..|Split(a)| - 1] ==> seg in Split(a + b)[1..]
    ensures seg in Split(b)[1..] ==> seg in Split(a + b)[1..]
  {
    hide Split;
    SplitConcat(a, b);
    var p, q := Split(a), Split(b);
    var all := p[..|p| - 1] + [p[|p| - 1] + q[0]] + q[1..];
    if seg in p[..|p| - 1] {
      var i :| 0 <= i < |p| - 1 && p[..|p| - 1][i] == seg;
      assert all[i] == seg;
    }
    if |p| > 1 && seg in p[1..|p| - 1] {
      var i :| 0 <= i < |p| - 2 && p[1..|p| - 1][i] == seg;
      assert all[i + 1] == seg && all[1..][i] == seg;
    }
    if seg in q[1..] {
      var i :| 0 <= i < |q| - 1 && q[1..][i] == seg;
      assert all[|p| + i] == seg;
      assert all[1..][|p| + i - 1] == seg;
    }
  }

  lemma {:induction false} HasKeyInside(a: string, b: string)
    ensures HasKey(a + (KEY + b))
    decreases |a|
  {
    var s := a + (KEY + b);
    if a == "" {
      assert s == KEY + b && KEY <= s;
    } else {
      HasKeyInside(a[1..], b);
      assert s[1..] == a[1..] + (KEY + b);
    }
  }

  /** Where the segments of a template that do not hold the key come from. */
  lemma SegmentsOfWoven(qs: seq<string>, seg: string)
    requires |qs| > 1 && !HasKey(seg)
    ensures var p, rest := Split(qs[0]), Split(Woven(qs[1..], KEY));
            && (seg in Split(Woven(qs, KEY)) ==> seg in p[..|p| - 1] || seg in rest[1..])
            && (seg in Split(Woven(qs, KEY))[1..] ==> (|p| > 1 && seg in p[1..|p| - 1]) || seg in rest[1..])
  {
    hide Split, HasKey;
    WovenStep(qs, KEY);
    var w := Woven(qs[1..], KEY);
    var p, rest := Split(qs[0]), Split(w);
    SplitPrepend(KEY, w);
    SplitConcat(qs[0], KEY + w);
    var seam := p[|p| - 1] + (KEY + rest[0]);
    HasKeyInside(p[|p| - 1], rest[0]);
    var q := [KEY + rest[0]] + rest[1..];
    assert q[0] == KEY + rest[0] && q[1..] == rest[1..];
    var all := p[..|p| - 1] + [seam] + rest[1..];
    assert Split(Woven(qs, KEY)) == all;
    if seg in all {
      var i :| 0 <= i < |all| && all[i] == seg;
      assert i != |p| - 1;
      assert i >= |p| ==> rest[1..][i - |p|] == seg;
    }
    if seg in all[1..] {
      var i :| 0 <= i < |all| - 1 && all[1..][i] == seg;
      assert all[i + 1] == seg && i + 1 != |p| - 1;
      assert i + 1 >= |p| ==> rest[1..][i + 1 - |p|] == seg;
      assert i + 1 < |p| - 1 ==> p[1..|p| - 1][i] == seg;
    }
  }

  lemma MatchStep(qs: seq<string>, s: string) returns (k: nat)
    requires |qs| > 1 && Matches(qs, s)
    ensures qs[0] <= s && |qs[0]| <= k <= |s| && Matches(qs[1..], s[k..])
  {
    k :| |qs[0]| <= k <= |s| && '\n' !in s[|qs[0]|..k] && Matches(qs[1..], s[k..]);
  }

  lemma OnePiece(qs: seq<string>, s: string)
    requires |qs| == 1 && Matches(qs, s)
    ensures Woven(qs, KEY) == s
  {
  }

  /** A path that matches holds the segments of the template that do not hold the key. */
  lemma {:induction false} MatchHoldsSegments(qs: seq<string>, s: string, seg: string)
    requires qs != [] && Matches(qs, s) && seg in Split(Woven(qs, KEY))[1..] && !HasKey(seg)
    ensures seg in Split(s)[1..]
    decreases |qs|
  {
    hide Split, HasKey, Matches, Woven;
    if |qs| == 1 {
      OnePiece(qs, s);
    } else {
      var k := MatchStep(qs, s);
      SegmentsOfWoven(qs, seg);
      if seg in Split(Woven(qs[1..], KEY))[1..] {
        MatchHoldsSegments(qs[1..], s[k..], seg);
        assert s == s[..k] + s[k..];
        SegmentsStay(s[..k], s[k..], seg);
      } else {
        assert s == qs[0] + s[|qs[0]|..];
        SegmentsStay(qs[0], s[|qs[0]|..], seg);
      }
    }
  }

  lemma {:induction false} ExpandToSelf(t: string)
    ensures Expand(t, KEY) == t
    decreases |t|
  {
    if t != "" {
      if KEY <= t {
        ExpandToSelf(t[5..]);
        assert t == KEY + t[5..];
      } else {
        ExpandToSelf(t[1..]);
        assert t == [t[0]] + t[1..];
      }
    }
  }

  /** What the extractor has matched. */
  lemma ExtractedMatches(template: string, rel: string) returns (j: nat)
    requires HasKey(template) && ExtractKey(template, rel) != ""
    ensures var ps := Pieces(template);
            && |ps| > 1 && ps[0] <= rel && |ps[0]| + j <= |rel| && Matches(ps[1..], rel[|ps[0]|..][j..])
  {
    PiecesCount(template);
    var ps := Pieces(template);
    j := Shortest(ps[1..], rel[|ps[0]|..], 0).value;
  }

  lemma ExtractedHoldsSegments(template: string, rel: string, seg: string)
    requires HasKey(template) && ExtractKey(template, rel) != "" && seg in Split(template) && !HasKey(seg)
    ensures seg in Split(rel)
  {
    hide Split, HasKey, Expand, Pieces, Matches, Unescape, Shortest, ExtractKey, Woven;
    var j := ExtractedMatches(template, rel);
    var ps := Pieces(template);
    var rest := rel[|ps[0]|..];
    ExpandToSelf(template);
    ExpandIsWoven(template, KEY);
    SegmentsOfWoven(ps, seg);
    assert rel == ps[0] + rest;
    if seg in Split(Woven(ps[1..], KEY))[1..] {
      MatchHoldsSegments(ps[1..], rest[j..], seg);
      assert rest == rest[..j] + rest[j..];
      SegmentsStay(rest[..j], rest[j..], seg);
    }
    SegmentsStay(ps[0], rest, seg);
    InTail(Split(rel), seg);
  }

  lemma InTail(s: seq<string>, x: string)
    requires s != []
    ensures x in s[1..] ==> x in s
  {
  }

  lemma {:induction false} SplitHasNoSlash(s: string)
    ensures forall i :: 0 <= i < |Split(s)| ==> '/' !in Split(s)[i]
  {
    if s != "" {
      SplitHasNoSlash(s[1..]);
    }
  }

  lemma {:induction false} KeptSegments(segments: seq<string>)
    ensures forall x :: x in Kept(segments) ==> x in segments && x != "" && x != "."
  {
    if segments != [] {
      KeptSegments(segments[1..]);
    }
  }

  /** The path of a record's file relative to the records directory, as a listing finds it. */
  lemma ListedPath(dir: Dir, base: string, template: string, key: string) returns (listed: seq<string>)
    requires Grounded(base, template) && HasKey(template) && ValidSegment(key)
    ensures var records := dir + Kept(Split(base));
            var path := RecordPath(dir, base, template, key);
            && records < path && path[|records|..] == listed && listed != [] && Split(Join(listed)) == listed
            && listed == Kept(Split(Expand(template, Escape(key))))
    ensures forall x :: x in listed ==> x != "" && x != "."
  {
    hide Split, Expand, Escape, HasKey, Kept, ExpandEach, Join, ValidSegment;
    var e := Escape(key);
    EscapeGrows(key);
    RecordPathAppends(dir, base, template, key);
    SplitExpand(template, e);
    var records := dir + Kept(Split(base));
    listed := Kept(Split(Expand(template, e)));
    assert (records + listed)[|records|..] == listed;
    KeyIsInSomeSegment(template);
    var n :| 0 <= n < |Split(template)| && HasKey(Split(template)[n]);
    KeptKey(Split(template), key, n);
    KeptSegments(Split(Expand(template, e)));
    SplitHasNoSlash(Expand(template, e));
    forall i | 0 <= i < |listed|
      ensures '/' !in listed[i]
    {
      assert listed[i] in listed;
    }
    SplitJoin(listed);
  }

  /** A template in clean form. */
  predicate AllPlain(segments: seq<string>) {
    forall i :: 0 <= i < |segments| ==> Plain(segments[i])
  }

  /** A record's file, listed relative to the records directory, gives back the record's key exactly when the template is
      in clean form and the text after its first placeholder, if more follow, does not come up early. */
  lemma ListedFileGivesKeyIff(dir: Dir, base: string, template: string, key: string)
    requires Grounded(base, template) && HasKey(template) && '\n' !in template && ValidSegment(key)
    ensures |Pieces(template)| > 1
    ensures var records := dir + Kept(Split(base));
            var path := RecordPath(dir, base, template, key);
            && records < path
            && (ExtractKey(template, Join(path[|records|..])) == key <==>
                AllPlain(Split(template)) && !ComesUpEarly(Pieces(template), Escape(key)))
  {
    hide Split, Expand, Escape, HasKey, Kept, ExpandEach, Join, ExtractKey, ValidSegment, Pieces, ComesUpEarly;
    var listed := ListedPath(dir, base, template, key);
    var records := dir + Kept(Split(base));
    assert RecordPath(dir, base, template, key)[|records|..] == listed;
    ListingRecoversKeyIff(template, key);
    KeyIsNotEmpty(key);
    SplitHasNoSlash(template);
    if AllPlain(Split(template)) {
      EscapeGrows(key);
      CleanTemplateIsKept(Split(template), key);
      SplitExpand(template, Escape(key));
      JoinSplit(Expand(template, Escape(key)));
    } else {
      var i :| 0 <= i < |Split(template)| && !Plain(Split(template)[i]);
      var seg := Split(template)[i];
      assert seg in Split(template) && (seg == "" || seg == ".");
      ShortHasNoKey(seg);
      assert Split(Join(listed)) == listed && seg !in listed;
      if ExtractKey(template, Join(listed)) == key {
        ExtractedHoldsSegments(template, Join(listed), seg);
      }
    }
  }

  lemma KeyIsNotEmpty(key: string)
    requires ValidSegment(key)
    ensures key != ""
  {
  }

  lemma ShortHasNoKey(seg: string)
    requires seg == "" || seg == "."
    ensures !HasKey(seg)
  {
    assert seg == "." ==> seg[1..] == "";
  }
}
