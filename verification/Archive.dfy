/** The ar reader `debian_archive_members` of scripts/repository.py, against the
    layout that deb(5), section FORMAT, describes. */
module Archive {
  import opened Text
  import opened Wrappers

  type Byte = n: nat | n < 256

  datatype ArchiveError = BadMagic | BadHeader | NotAscii | BadSize

  type Members = map<string, seq<Byte>>

  const MAGIC: seq<Byte> := [33, 60, 97, 114, 99, 104, 62, 10]
  const HEADER_END: seq<Byte> := [96, 10]

  // ---- The Python operations the reader uses ----

  function ClampIndex(i: int, n: nat): (c: nat)
    ensures c <= n
  {
    if i < 0 then (if i + n < 0 then 0 else i + n)
    else if i > n then n else i
  }

  /** `s[lo:hi]`, with negative bounds counted from the end. */
  function Slice<T>(s: seq<T>, lo: int, hi: int): seq<T> {
    var l, h := ClampIndex(lo, |s|), ClampIndex(hi, |s|);
    if l <= h then s[l..h] else []
  }

  function DecodeAscii(b: seq<Byte>): Option<string> {
    if forall i :: 0 <= i < |b| ==> b[i] < 128
    then Some(seq(|b|, i requires 0 <= i < |b| => b[i] as char))
    else None
  }

  predicate IsSpace(c: char) {
    9 <= c as int <= 13 || 28 <= c as int <= 32
  }

  function StripLeft(s: string): string {
    if s != "" && IsSpace(s[0]) then StripLeft(s[1..]) else s
  }

  function StripRight(s: string): string {
    if s != "" && IsSpace(s[|s| - 1]) then StripRight(s[..|s| - 1]) else s
  }

  function Strip(s: string): string {
    StripLeft(StripRight(s))
  }

  function StripSlashes(s: string): string {
    if s != "" && s[|s| - 1] == '/' then StripSlashes(s[..|s| - 1]) else s
  }

  function WithoutUnderscores(s: string): string {
    if s == "" then ""
    else (if s[0] == '_' then "" else [s[0]]) + WithoutUnderscores(s[1..])
  }

  /** Digits with single underscores between them. */
  predicate IsNumeral(s: string) {
    && s != "" && IsDigit(s[0]) && IsDigit(s[|s| - 1])
    && (forall i :: 0 <= i < |s| ==> IsDigit(s[i]) || s[i] == '_')
    && (forall i :: 0 <= i < |s| - 1 ==> s[i] != '_' || s[i + 1] != '_')
  }

  lemma WithoutUnderscoresDigits(s: string)
    requires forall i :: 0 <= i < |s| ==> IsDigit(s[i]) || s[i] == '_'
    ensures AllDigits(WithoutUnderscores(s))
  {
  }

  /** `int(s)` for an ASCII string: surrounding space, a sign, and a numeral. */
  function ParseInt(s: string): Option<int> {
    var t := Strip(s);
    var negative := t != "" && t[0] == '-';
    var body := if t != "" && (t[0] == '-' || t[0] == '+') then t[1..] else t;
    if !IsNumeral(body) then None
    else
      WithoutUnderscoresDigits(body);
      var value: int := DigitsValue(WithoutUnderscores(body));
      Some(if negative then -value else value)
  }

  // ---- The reader ----

  /** What one pass of the loop does. */
  datatype Pass = Done | Raise(error: ArchiveError) | Next(size: int, name: string, content: seq<Byte>)

  function HeaderAt(data: seq<Byte>, offset: int): Pass {
    if offset >= |data| then Done
    else
      var header := Slice(data, offset, offset + 60);
      if |header| != 60 || header[58..] != HEADER_END then Raise(BadHeader)
      else
        var name, size := DecodeAscii(header[..16]), DecodeAscii(header[48..58]);
        if name.None? || size.None? then Raise(NotAscii)
        else
          var parsed := ParseInt(Strip(size.value));
          if parsed.None? then Raise(BadSize)
          else Next(parsed.value, StripSlashes(Strip(name.value)),
                    Slice(data, offset + 60, offset + 60 + parsed.value))
  }

  /** The next offset. The remainder is never negative, as in Python. */
  function Advance(offset: int, size: int): int {
    offset + 60 + size + size % 2
  }

  /** The loop from the given point, if it ends within the given number of further headers.
      `pass` says what one pass does at an offset. */
  function ReadFrom(pass: int -> Pass, offset: int, members: Members, fuel: nat): Option<Result<Members, ArchiveError>>
    decreases fuel
  {
    match pass(offset)
    case Done => Some(Ok(members))
    case Raise(e) => Some(Err(e))
    case Next(size, name, content) =>
      if fuel == 0 then None
      else ReadFrom(pass, Advance(offset, size), members[name := content], fuel - 1)
  }

  ghost predicate Ends(pass: int -> Pass, offset: int) {
    exists fuel: nat :: ReadFrom(pass, offset, map[], fuel).Some?
  }

  function Passes(data: seq<Byte>): int -> Pass {
    offset => HeaderAt(data, offset)
  }

  /** The reader comes to an end on this file. */
  ghost predicate Terminates(data: seq<Byte>) {
    MAGIC <= data ==> Ends(Passes(data), |MAGIC|)
  }

  /** The one result that every sufficient amount of fuel leads to. */
  ghost predicate Reads(data: seq<Byte>, r: Result<Members, ArchiveError>) {
    if MAGIC <= data then exists fuel: nat :: ReadFrom(Passes(data), |MAGIC|, map[], fuel) == Some(r)
    else r == Err(BadMagic)
  }

  method DebianArchiveMembers(data: seq<Byte>) returns (r: Result<Members, ArchiveError>)
    requires Terminates(data)
    ensures Reads(data, r)
  {
    hide HeaderAt;
    if !(MAGIC <= data) {
      return Err(BadMagic);
    }
    var members: Members := map[];
    var offset: int := 8;
    ghost var pass := Passes(data);
    ghost var total: nat :| ReadFrom(pass, |MAGIC|, map[], total).Some?;
    ghost var fuel := total;
    while offset < |data|
      invariant ReadFrom(pass, offset, members, fuel).Some?
      invariant ReadFrom(pass, offset, members, fuel) == ReadFrom(pass, |MAGIC|, map[], total)
      decreases fuel
    {
      var size, name, content;
      r, size, name, content := ReadMember(data, offset);
      if r.Err? {
        assert pass(offset) == Raise(r.error);
        return;
      }
      assert pass(offset) == Next(size, name, content);
      members := members[name := content];
      offset := offset + 60 + size + size % 2;
      fuel := fuel - 1;
    }
    DoneAtTheEnd(data, offset);
    return Ok(members);
  }

  /** The body of the loop up to the member's content. */
  method ReadMember(data: seq<Byte>, offset: int)
      returns (r: Result<Members, ArchiveError>, size: int, name: string, content: seq<Byte>)
    requires offset < |data|
    ensures r.Err? ==> HeaderAt(data, offset) == Raise(r.error)
    ensures r.Ok? ==> HeaderAt(data, offset) == Next(size, name, content)
  {
    hide DecodeAscii, ParseInt, Strip, StripSlashes, Slice;
    size, name, content := 0, "", [];
    var header := Slice(data, offset, offset + 60);
    if |header| != 60 || header[58..] != HEADER_END {
      return Err(BadHeader), size, name, content;
    }
    var decoded, sizeText := DecodeAscii(header[..16]), DecodeAscii(header[48..58]);
    if decoded.None? || sizeText.None? {
      return Err(NotAscii), size, name, content;
    }
    var parsed := ParseInt(Strip(sizeText.value));
    if parsed.None? {
      return Err(BadSize), size, name, content;
    }
    size := parsed.value;
    name := StripSlashes(Strip(decoded.value));
    content := Slice(data, offset + 60, offset + 60 + size);
    return Ok(map[]), size, name, content;
  }

  lemma {:induction false} MoreFuel(pass: int -> Pass, offset: int, members: Members, fuel: nat, more: nat)
    requires fuel <= more && ReadFrom(pass, offset, members, fuel).Some?
    ensures ReadFrom(pass, offset, members, more) == ReadFrom(pass, offset, members, fuel)
    decreases fuel
  {
    match pass(offset)
    case Next(size, name, content) =>
      MoreFuel(pass, Advance(offset, size), members[name := content], fuel - 1, more - 1);
    case _ =>
  }

  lemma ReadsOneResult(data: seq<Byte>, r: Result<Members, ArchiveError>, r': Result<Members, ArchiveError>)
    requires Reads(data, r) && Reads(data, r')
    ensures r == r'
  {
    hide HeaderAt;
    if MAGIC <= data {
      var f: nat :| ReadFrom(Passes(data), |MAGIC|, map[], f) == Some(r);
      var g: nat :| ReadFrom(Passes(data), |MAGIC|, map[], g) == Some(r');
      MoreFuel(Passes(data), |MAGIC|, map[], f, f + g);
      MoreFuel(Passes(data), |MAGIC|, map[], g, f + g);
    }
  }

  lemma DoneAtTheEnd(data: seq<Byte>, offset: int)
    ensures HeaderAt(data, offset) == Done <==> offset >= |data|
  {
  }

  /** Within the file, a header is refused exactly if it is cut short or does not end in its two end bytes. */
  lemma BadHeaderExactly(data: seq<Byte>, offset: nat)
    requires offset < |data|
    ensures HeaderAt(data, offset) == Raise(BadHeader)
            <==> offset + 60 > |data| || data[offset + 58] != 96 || data[offset + 59] != 10
  {
    var header := Slice(data, offset, offset + 60);
    hide DecodeAscii, ParseInt, Strip, StripSlashes;
    if offset + 60 <= |data| {
      assert header == data[offset..offset + 60];
      assert header[58..] == [data[offset + 58], data[offset + 59]];
    }
  }

  // ---- When the loop ends ----

  /** The offset after k passes that each found a member. */
  function OffsetAfter(pass: int -> Pass, offset: int, k: nat): Option<int> {
    if k == 0 then Some(offset)
    else
      var before := OffsetAfter(pass, offset, k - 1);
      if before.Some? && pass(before.value).Next? then Some(Advance(before.value, pass(before.value).size)) else None
  }

  lemma {:induction false} OffsetAfterSum(pass: int -> Pass, offset: int, j: nat, k: nat)
    ensures OffsetAfter(pass, offset, j).None? ==> OffsetAfter(pass, offset, j + k).None?
    ensures OffsetAfter(pass, offset, j).Some? ==>
              OffsetAfter(pass, offset, j + k) == OffsetAfter(pass, OffsetAfter(pass, offset, j).value, k)
  {
    if k > 0 {
      OffsetAfterSum(pass, offset, j, k - 1);
      assert j + k - 1 == j + (k - 1);
    }
  }

  lemma {:induction false} RaiseIsReported(pass: int -> Pass, offset: int, members: Members, k: nat, at: int)
    requires OffsetAfter(pass, offset, k) == Some(at) && pass(at).Raise?
    ensures ReadFrom(pass, offset, members, k) == Some(Err(pass(at).error))
    decreases k
  {
    assert OffsetAfter(pass, offset, 0) == Some(offset);
    if k > 0 {
      OffsetAfterSum(pass, offset, 1, k - 1);
      var next := Advance(offset, pass(offset).size);
      assert OffsetAfter(pass, offset, 1) == Some(next);
      RaiseIsReported(pass, next, members[pass(offset).name := pass(offset).content], k - 1, at);
    }
  }

  lemma {:induction false} ReportWasRaised(pass: int -> Pass, offset: int, members: Members, fuel: nat, e: ArchiveError)
      returns (k: nat, at: int)
    requires ReadFrom(pass, offset, members, fuel) == Some(Err(e))
    ensures OffsetAfter(pass, offset, k) == Some(at) && pass(at) == Raise(e)
    decreases fuel
  {
    assert OffsetAfter(pass, offset, 0) == Some(offset);
    match pass(offset)
    case Raise(_) => k, at := 0, offset;
    case Next(size, name, content) =>
      var next := Advance(offset, size);
      k, at := ReportWasRaised(pass, next, members[name := content], fuel - 1, e);
      assert OffsetAfter(pass, offset, 1) == Some(next);
      OffsetAfterSum(pass, offset, 1, k);
      k := 1 + k;
  }

  /** The reader fails with an error exactly if it comes to an offset whose header raises it. */
  lemma FailsExactly(data: seq<Byte>, e: ArchiveError)
    requires MAGIC <= data
    ensures Reads(data, Err(e)) <==>
              exists k: nat, at :: OffsetAfter(Passes(data), |MAGIC|, k) == Some(at) && HeaderAt(data, at) == Raise(e)
  {
    hide HeaderAt;
    var pass := Passes(data);
    if Reads(data, Err(e)) {
      var fuel: nat :| ReadFrom(pass, |MAGIC|, map[], fuel) == Some(Err(e));
      var k, at := ReportWasRaised(pass, |MAGIC|, map[], fuel, e);
      assert HeaderAt(data, at) == Raise(e);
    }
    if k: nat, at :| OffsetAfter(pass, |MAGIC|, k) == Some(at) && HeaderAt(data, at) == Raise(e) {
      assert pass(at) == Raise(e);
      RaiseIsReported(pass, |MAGIC|, map[], k, at);
    }
  }

  /** The members gathered so far do not influence when the loop ends. */
  lemma {:induction false} FuelCountsPasses(pass: int -> Pass, offset: int, members: Members, fuel: nat)
    ensures ReadFrom(pass, offset, members, fuel).None? <==> OffsetAfter(pass, offset, fuel + 1).Some?
    decreases fuel
  {
    assert OffsetAfter(pass, offset, 0) == Some(offset);
    if pass(offset).Next? {
      var next := Advance(offset, pass(offset).size);
      assert OffsetAfter(pass, offset, 1) == Some(next);
      OffsetAfterSum(pass, offset, 1, fuel);
      if fuel > 0 {
        FuelCountsPasses(pass, next, members[pass(offset).name := pass(offset).content], fuel - 1);
      }
    } else {
      OffsetAfterSum(pass, offset, 1, fuel);
    }
  }

  /** Coming back to an offset means never ending. */
  lemma {:induction false} RepeatGoesOn(pass: int -> Pass, offset: int, i: nat, j: nat, k: nat)
    requires i < j && OffsetAfter(pass, offset, i).Some?
    requires OffsetAfter(pass, offset, i) == OffsetAfter(pass, offset, j)
    ensures OffsetAfter(pass, offset, k).Some?
  {
    if k <= j {
      OffsetAfterSum(pass, offset, k, j - k);
    } else {
      OffsetAfterSum(pass, offset, j, k - j);
      OffsetAfterSum(pass, offset, i, k - j);
      RepeatGoesOn(pass, offset, i, j, i + (k - j));
    }
  }

  lemma {:induction false} Pigeonhole(s: seq<int>, lo: int, hi: int)
    requires lo < hi && |s| > hi - lo
    requires forall i :: 0 <= i < |s| ==> lo <= s[i] < hi
    ensures exists i, j :: 0 <= i < j < |s| && s[i] == s[j]
    decreases hi - lo
  {
    if hi == lo + 1 {
      assert s[0] == s[1];
    } else if k :| 0 <= k < |s| && s[k] == hi - 1 {
      if m :| 0 <= m < |s| && m != k && s[m] == hi - 1 {
        assert s[if m < k then m else k] == s[if m < k then k else m];
      } else {
        var rest := s[..k] + s[k + 1..];
        Pigeonhole(rest, lo, hi - 1);
        var i, j :| 0 <= i < j < |rest| && rest[i] == rest[j];
        assert s[if i < k then i else i + 1] == s[if j < k then j else j + 1];
      }
    } else {
      Pigeonhole(s, lo, hi - 1);
    }
  }

  /** The loop comes back to an offset that it has been at. */
  ghost predicate Repeats(pass: int -> Pass, offset: int) {
    exists i: nat, j: nat ::
      i < j && OffsetAfter(pass, offset, i).Some? && OffsetAfter(pass, offset, i) == OffsetAfter(pass, offset, j)
  }

  lemma RepeatNeverEnds(pass: int -> Pass, offset: int)
    requires Repeats(pass, offset)
    ensures !Ends(pass, offset)
  {
    var i: nat, j: nat :|
      i < j && OffsetAfter(pass, offset, i).Some? && OffsetAfter(pass, offset, i) == OffsetAfter(pass, offset, j);
    forall fuel: nat
      ensures ReadFrom(pass, offset, map[], fuel).None?
    {
      RepeatGoesOn(pass, offset, i, j, fuel + 1);
      FuelCountsPasses(pass, offset, map[], fuel);
    }
  }

  /** A loop whose offsets stay within bounds repeats one if it is not over after as many passes as there are. */
  lemma LongLoopRepeats(pass: int -> Pass, offset: int, lo: int, hi: int)
    requires lo < hi
    requires forall o :: pass(o).Next? ==> lo <= o < hi
    requires ReadFrom(pass, offset, map[], hi - lo).None?
    ensures Repeats(pass, offset)
  {
    var n := hi - lo;
    FuelCountsPasses(pass, offset, map[], n);
    forall k | 0 <= k <= n
      ensures OffsetAfter(pass, offset, k).Some? && lo <= OffsetAfter(pass, offset, k).value < hi
    {
      OffsetAfterSum(pass, offset, k + 1, n - k);
    }
    var visited := seq(n + 1, k requires 0 <= k <= n => OffsetAfter(pass, offset, k).value);
    Pigeonhole(visited, lo, hi);
    var i, j :| 0 <= i < j < |visited| && visited[i] == visited[j];
    assert OffsetAfter(pass, offset, i) == OffsetAfter(pass, offset, j);
  }

  lemma MembersLieInside(data: seq<Byte>, offset: int)
    requires HeaderAt(data, offset).Next?
    ensures -|data| <= offset < |data|
  {
    var header := Slice(data, offset, offset + 60);
    assert |header| == 60;
  }

  /** Exactly which files the reader comes to an end on: those on which it never comes back to an offset, and
      also those that it finishes within twice as many passes as they have bytes. */
  lemma TerminatesExactly(data: seq<Byte>)
    ensures Terminates(data) <==> (MAGIC <= data ==> !Repeats(Passes(data), |MAGIC|))
    ensures Terminates(data) <==>
              (MAGIC <= data ==> ReadFrom(Passes(data), |MAGIC|, map[], 2 * |data|).Some?)
  {
    hide HeaderAt;
    var pass := Passes(data);
    forall o | pass(o).Next?
      ensures -|data| <= o < |data|
    {
      MembersLieInside(data, o);
    }
    if MAGIC <= data {
      if ReadFrom(pass, |MAGIC|, map[], 2 * |data|).None? {
        LongLoopRepeats(pass, |MAGIC|, -|data|, |data|);
      }
      if Repeats(pass, |MAGIC|) {
        RepeatNeverEnds(pass, |MAGIC|);
      }
    }
  }

  /** A pass moves forward exactly when the size field is at least -59. */
  lemma AdvanceMovesForward(offset: int, size: int)
    ensures Advance(offset, size) > offset <==> size >= -59
    ensures Advance(offset, size) == offset <==> size == -60 || size == -61
  {
  }

  /** The loop comes to this offset and finds a member there. */
  ghost predicate Visits(pass: int -> Pass, start: int, offset: int) {
    pass(offset).Next? && exists k: nat :: OffsetAfter(pass, start, k) == Some(offset)
  }

  /** Sizes of at least -59, non-negative ones in particular, let the reader finish. Only the members
      that it comes to count. */
  lemma ForwardSizesTerminate(data: seq<Byte>)
    requires forall o :: Visits(Passes(data), |MAGIC|, o) ==> Passes(data)(o).size >= -59
    ensures Terminates(data)
  {
    hide HeaderAt;
    var pass := Passes(data);
    forall o | Visits(pass, |MAGIC|, o)
      ensures o < |data| && Advance(o, pass(o).size) > o
    {
      MembersLieInside(data, o);
    }
    ForwardPassesEnd(pass, |MAGIC|, map[], |data|);
  }

  lemma {:induction false} ForwardPassesEnd(pass: int -> Pass, offset: int, members: Members, limit: int)
    requires forall o :: Visits(pass, offset, o) ==> o < limit && Advance(o, pass(o).size) > o
    ensures ReadFrom(pass, offset, members, if offset < limit then limit - offset else 0).Some?
    decreases limit - offset
  {
    assert OffsetAfter(pass, offset, 0) == Some(offset);
    if pass(offset).Next? {
      assert Visits(pass, offset, offset);
      var next := Advance(offset, pass(offset).size);
      var members' := members[pass(offset).name := pass(offset).content];
      forall o | Visits(pass, next, o)
        ensures Visits(pass, offset, o)
      {
        var k: nat :| OffsetAfter(pass, next, k) == Some(o);
        assert OffsetAfter(pass, offset, 1) == Some(next);
        OffsetAfterSum(pass, offset, 1, k);
        assert OffsetAfter(pass, offset, 1 + k) == Some(o);
      }
      ForwardPassesEnd(pass, next, members', limit);
      MoreFuel(pass, next, members', if next < limit then limit - next else 0, limit - offset - 1);
    }
  }

  /** Any member that the reader comes to and whose size field reads -60 or -61 is met again and again. */
  lemma StuckMemberNeverEnds(data: seq<Byte>, offset: int)
    requires MAGIC <= data && Visits(Passes(data), |MAGIC|, offset)
    requires Passes(data)(offset).size in {-60, -61}
    ensures !Terminates(data)
  {
    hide HeaderAt;
    var pass := Passes(data);
    var k: nat :| OffsetAfter(pass, |MAGIC|, k) == Some(offset);
    AdvanceMovesForward(offset, pass(offset).size);
    assert OffsetAfter(pass, |MAGIC|, k + 1) == Some(offset);
    RepeatNeverEnds(pass, |MAGIC|);
  }

  // ---- Archives as deb(5) lays them out ----

  /** A member with its name, whether the name is written with a trailing slash, and the
      date, owner, group and mode columns, which the reader skips. */
  datatype Member = Member(name: string, slash: bool, columns: seq<Byte>, content: seq<Byte>)

  predicate IsAscii(s: string) {
    forall i :: 0 <= i < |s| ==> s[i] as int < 128
  }

  function EncodeAscii(s: string): seq<Byte>
    requires IsAscii(s)
  {
    seq(|s|, i requires 0 <= i < |s| => s[i] as int)
  }

  function Spaces(n: nat): string {
    seq(n, i => ' ')
  }

  function Padded(s: string, width: nat): string
    requires |s| <= width
  {
    s + Spaces(width - |s|)
  }

  predicate NoOuterSpace(s: string) {
    s != "" ==> !IsSpace(s[0]) && !IsSpace(s[|s| - 1])
  }

  function WrittenName(m: Member): string {
    if m.slash then m.name + "/" else m.name
  }

  predicate Legal(m: Member) {
    && IsAscii(m.name) && NoOuterSpace(m.name)
    && (m.name != "" ==> m.name[|m.name| - 1] != '/')
    && |WrittenName(m)| <= 16
    && |m.columns| == 32
    && |m.content| < Pow10(10)
  }

  function Header(name: string, columns: seq<Byte>, size: string): seq<Byte>
    requires IsAscii(name) && |name| == 16 && |columns| == 32 && IsAscii(size) && |size| == 10
  {
    EncodeAscii(name) + columns + EncodeAscii(size) + HEADER_END
  }

  function SizeText(n: nat): string
    requires n < Pow10(10)
  {
    DecimalWidth(n, 10);
    Padded(Decimal(n), 10)
  }

  lemma SizeTextIsAscii(n: nat)
    requires n < Pow10(10)
    ensures IsAscii(SizeText(n)) && |SizeText(n)| == 10
  {
    DecimalReadsBack(n);
    DecimalWidth(n, 10);
  }

  function RenderMember(m: Member): seq<Byte>
    requires Legal(m)
  {
    SizeTextIsAscii(|m.content|);
    Header(Padded(WrittenName(m), 16), m.columns, SizeText(|m.content|)) + m.content
  }

  function PadByte(m: Member): seq<Byte> {
    if |m.content| % 2 == 1 then [10] else []
  }

  /** The members one after the other, each on an even boundary; the pad byte after the last
      one may be missing. */
  function RenderMembers(ms: seq<Member>, lastPad: bool): seq<Byte>
    requires forall m :: m in ms ==> Legal(m)
  {
    if ms == [] then []
    else if |ms| == 1 && !lastPad then RenderMember(ms[0])
    else RenderMember(ms[0]) + PadByte(ms[0]) + RenderMembers(ms[1..], lastPad)
  }

  function Render(ms: seq<Member>, lastPad: bool): seq<Byte>
    requires forall m :: m in ms ==> Legal(m)
  {
    MAGIC + RenderMembers(ms, lastPad)
  }

  /** The members by name; a repeated name keeps its last content. */
  function ByName(ms: seq<Member>, before: Members): Members {
    if ms == [] then before else ByName(ms[1..], before[ms[0].name := ms[0].content])
  }

  lemma {:induction false} StripRightOfPadded(s: string, n: nat)
    requires s == "" || !IsSpace(s[|s| - 1])
    ensures StripRight(s + Spaces(n)) == s
  {
    if n > 0 {
      var t := s + Spaces(n);
      assert t[..|t| - 1] == s + Spaces(n - 1);
      StripRightOfPadded(s, n - 1);
    } else {
      assert s + Spaces(0) == s;
    }
  }

  lemma StripPadded(s: string, width: nat)
    requires NoOuterSpace(s) && |s| <= width
    ensures Strip(Padded(s, width)) == s
  {
    StripRightOfPadded(s, width - |s|);
  }

  lemma StripSlashesOfWritten(m: Member)
    requires Legal(m)
    ensures StripSlashes(WrittenName(m)) == m.name
    ensures NoOuterSpace(WrittenName(m)) && IsAscii(WrittenName(m))
  {
    if m.slash {
      assert WrittenName(m)[..|m.name|] == m.name;
    }
  }

  lemma {:induction false} NoUnderscoresToRemove(s: string)
    requires AllDigits(s)
    ensures WithoutUnderscores(s) == s
  {
    if s != "" {
      NoUnderscoresToRemove(s[1..]);
    }
  }

  lemma ParseDecimal(n: nat)
    ensures NoOuterSpace(Decimal(n)) && Strip(Decimal(n)) == Decimal(n)
    ensures ParseInt(Decimal(n)) == Some(n)
  {
    hide Decimal;
    DecimalReadsBack(n);
    NoUnderscoresToRemove(Decimal(n));
  }

  lemma DecodeEncoded(s: string)
    requires IsAscii(s)
    ensures DecodeAscii(EncodeAscii(s)) == Some(s)
  {
    assert DecodeAscii(EncodeAscii(s)).value == s;
  }

  /** Where a header stands in the file, a pass reads its three fields. */
  lemma HeaderIsRead(before: seq<Byte>, name: string, columns: seq<Byte>, size: string, rest: seq<Byte>)
    requires IsAscii(name) && |name| == 16 && |columns| == 32 && IsAscii(size) && |size| == 10
    requires ParseInt(Strip(size)).Some?
    ensures var data := before + Header(name, columns, size) + rest;
            var n := ParseInt(Strip(size)).value;
            HeaderAt(data, |before|)
            == Next(n, StripSlashes(Strip(name)), Slice(data, |before| + 60, |before| + 60 + n))
  {
    hide Strip, StripSlashes, ParseInt;
    var data := before + Header(name, columns, size) + rest;
    var header := Slice(data, |before|, |before| + 60);
    assert header == Header(name, columns, size);
    assert header[..16] == EncodeAscii(name);
    assert header[48..58] == EncodeAscii(size);
    DecodeEncoded(name);
    DecodeEncoded(size);
  }

  lemma MemberIsRead(before: seq<Byte>, m: Member, rest: seq<Byte>)
    requires Legal(m)
    ensures HeaderAt(before + RenderMember(m) + rest, |before|) == Next(|m.content|, m.name, m.content)
  {
    hide Strip, StripSlashes, ParseInt, HeaderAt, DecodeAscii;
    var n := |m.content|;
    var name, size := Padded(WrittenName(m), 16), SizeText(n);
    SizeTextIsAscii(n);
    StripSlashesOfWritten(m);
    StripPadded(WrittenName(m), 16);
    ParseDecimal(n);
    DecimalWidth(n, 10);
    StripPadded(Decimal(n), 10);
    HeaderIsRead(before, name, m.columns, size, m.content + rest);
    var data := before + RenderMember(m) + rest;
    assert data == before + Header(name, m.columns, size) + (m.content + rest);
    assert Slice(data, |before| + 60, |before| + 60 + n) == m.content;
  }

  lemma {:induction false} MembersAreRead(before: seq<Byte>, ms: seq<Member>, lastPad: bool, members: Members)
    requires forall m :: m in ms ==> Legal(m)
    ensures var data := before + RenderMembers(ms, lastPad);
            ReadFrom(Passes(data), |before|, members, |ms|) == Some(Ok(ByName(ms, members)))
    decreases |ms|
  {
    hide HeaderAt, RenderMember;
    var data := before + RenderMembers(ms, lastPad);
    if ms == [] {
      DoneAtTheEnd(data, |before|);
    } else {
      var m := ms[0];
      var next := Advance(|before|, |m.content|);
      if |ms| == 1 && !lastPad {
        MemberIsRead(before, m, []);
        assert data == before + RenderMember(m) + [];
        DoneAtTheEnd(data, next);
        MemberLength(m);
        assert ms[1..] == [];
      } else {
        var rest := RenderMembers(ms[1..], lastPad);
        MemberIsRead(before, m, PadByte(m) + rest);
        assert data == before + RenderMember(m) + (PadByte(m) + rest);
        var before' := before + RenderMember(m) + PadByte(m);
        MemberLength(m);
        assert data == before' + rest;
        MembersAreRead(before', ms[1..], lastPad, members[m.name := m.content]);
      }
    }
  }

  lemma MemberLength(m: Member)
    requires Legal(m)
    ensures |RenderMember(m)| == 60 + |m.content|
    ensures |PadByte(m)| == |m.content| % 2
  {
    SizeTextIsAscii(|m.content|);
  }

  /** Reading what was rendered gives back every member, for any mix of odd and even sizes,
      with or without the last pad byte. */
  lemma RenderThenRead(ms: seq<Member>, lastPad: bool)
    requires forall m :: m in ms ==> Legal(m)
    ensures Terminates(Render(ms, lastPad))
    ensures Reads(Render(ms, lastPad), Ok(ByName(ms, map[])))
  {
    MembersAreRead(MAGIC, ms, lastPad, map[]);
  }

  /** A name that no later member repeats keeps its content. */
  lemma {:induction false} KeptByName(ms: seq<Member>, before: Members, n: string)
    requires n in before && forall m :: m in ms ==> m.name != n
    ensures n in ByName(ms, before) && ByName(ms, before)[n] == before[n]
    decreases |ms|
  {
    if ms != [] {
      assert ms[0] in ms;
      KeptByName(ms[1..], before[ms[0].name := ms[0].content], n);
    }
  }

  lemma {:induction false} NamesByName(ms: seq<Member>, before: Members)
    ensures ByName(ms, before).Keys == before.Keys + set m | m in ms :: m.name
    decreases |ms|
  {
    if ms != [] {
      NamesByName(ms[1..], before[ms[0].name := ms[0].content]);
      assert ms == [ms[0]] + ms[1..];
    }
  }

  /** With distinct names, nothing is lost: the result holds exactly the given members. */
  lemma {:induction false} DistinctNamesKeepAll(ms: seq<Member>, before: Members, i: nat)
    requires forall j, k :: 0 <= j < k < |ms| ==> ms[j].name != ms[k].name
    requires i < |ms|
    ensures ms[i].name in ByName(ms, before) && ByName(ms, before)[ms[i].name] == ms[i].content
    decreases |ms|
  {
    var started := before[ms[0].name := ms[0].content];
    if i == 0 {
      forall m | m in ms[1..]
        ensures m.name != ms[0].name
      {
        var k :| 0 <= k < |ms[1..]| && ms[1..][k] == m;
        assert ms[k + 1] == m;
      }
      KeptByName(ms[1..], started, ms[0].name);
    } else {
      DistinctNamesKeepAll(ms[1..], started, i - 1);
    }
  }

  // ---- A file the reader never finishes ----

  function ForgedFile(): seq<Byte> {
    MAGIC + Header(Padded("a", 16), seq(32, i => 32), Padded("-60", 10))
  }

  lemma MinusSixty()
    ensures Strip("-60") == "-60" && ParseInt("-60") == Some(-60)
  {
    assert "60"[..1] == "6" && "6"[..0] == "" && "-60"[1..] == "60";
    NoUnderscoresToRemove("60");
  }

  lemma ForgedFileNeverEnds()
    ensures !Terminates(ForgedFile())
  {
    hide Strip, ParseInt, HeaderAt;
    var name, columns, size := Padded("a", 16), seq(32, i => 32), Padded("-60", 10);
    StripPadded("-60", 10);
    MinusSixty();
    HeaderIsRead(MAGIC, name, columns, size, []);
    assert ForgedFile() == MAGIC + Header(name, columns, size) + [];
    assert OffsetAfter(Passes(ForgedFile()), |MAGIC|, 0) == Some(|MAGIC|);
    StuckMemberNeverEnds(ForgedFile(), |MAGIC|);
  }
}
