/** Short names: eight characters, three more behind the period, upper case
    only, with two flags that remember lower case. Configured with long names
    and code pages. */
module ShortNames {
  import opened Results
  import opened Bytes
  import opened Marks

  const SPACE: byte := 0x20
  const PERIOD: byte := 0x2E
  const UNDERSCORE: byte := 0x5F
  const KANJI_LEAD: byte := 0xE5
  const REPLACE_KANJI: byte := 0x05
  const SHORT_NAME_LENGTH: nat := 8

  predicate IsAscii(c: byte) {
    c < 0x80
  }

  predicate IsLower(c: byte) {
    0x61 <= c <= 0x7A
  }

  predicate IsUpper(c: byte) {
    0x41 <= c <= 0x5A
  }

  function ToUpper(c: byte): byte {
    if IsLower(c) then c - 0x20 else c
  }

  function ToLower(c: byte): byte {
    if IsUpper(c) then c + 0x20 else c
  }

  // + , ; = [ ]
  predicate Replaced(c: byte) {
    c == 0x2B || c == 0x2C || c == 0x3B || c == 0x3D || c == 0x5B || c == 0x5D
  }

  // Control characters, and \ / : * ? " < > | unless anything goes.
  predicate Invalid(c: byte, noCheck: bool) {
    c < 0x20 || c == 0x5C || c == 0x2F
    || (!noCheck && (c == 0x3A || c == 0x2A || c == 0x3F || c == 0x22 || c == 0x3C || c == 0x3E || c == 0x7C))
  }

  /** The characters no name may have, those a short name has an underscore for, and the letters. */
  lemma CharactersAre(c: byte)
    ensures Invalid(c, true) <==> c < 32 || (c as char) in "\\/"
    ensures Invalid(c, false) <==> c < 32 || (c as char) in "\\/:*?\"<>|"
    ensures Replaced(c) <==> (c as char) in "+,;=[]"
    ensures ToUpper(c) == if 'a' <= c as char <= 'z' then (c as char - 'a' + 'A') as nat else c
    ensures ToLower(c) == if 'A' <= c as char <= 'Z' then (c as char - 'A' + 'a') as nat else c
    ensures (c as char == ' ' <==> c == SPACE) && (c as char == '.' <==> c == PERIOD) && (c as char == '_' <==> c == UNDERSCORE)
  {
  }

  // Which cases were seen in the name and behind the period.
  datatype Mix = Mix(lower: bool, upper: bool, extLower: bool, extUpper: bool)

  predicate Mixed(m: Mix) {
    (m.lower && m.upper) || (m.extLower && m.extUpper)
  }

  datatype Status = Status(mix: Mix, lossy: bool)

  // ----- from the short name back to characters

  function Shown(c: byte, lower: bool): byte {
    if lower && IsAscii(c) then ToLower(c) else c
  }

  // The characters from a place on, up to the first space.
  function Part(d: seq<byte>, from: nat, end: nat, lower: bool): seq<byte>
    requires from <= end <= |d|
    decreases end - from
  {
    if from == end || d[from] == SPACE then [] else [Shown(d[from], lower)] + Part(d, from + 1, end, lower)
  }

  function Back(d: seq<byte>, lower: bool, extLower: bool): seq<byte>
    requires |d| == DOS_NAME_LENGTH
  {
    var start := if d[0] == REPLACE_KANJI then [KANJI_LEAD] else [];
    start + Part(d, |start|, SHORT_NAME_LENGTH, lower)
    + if d[SHORT_NAME_LENGTH] == SPACE then []
      else [PERIOD] + Part(d, SHORT_NAME_LENGTH, DOS_NAME_LENGTH, extLower)
  }

  lemma {:induction false} PartSnoc(d: seq<byte>, from: nat, i: nat, end: nat, lower: bool)
    requires from <= i < end <= |d| && forall j :: from <= j <= i ==> d[j] != SPACE
    ensures Part(d, from, i + 1, lower) == Part(d, from, i, lower) + [Shown(d[i], lower)]
    decreases i - from
  {
    hide Shown;
    var s := [Shown(d[from], lower)];
    assert Part(d, from, i + 1, lower) == s + Part(d, from + 1, i + 1, lower);
    if from < i {
      PartSnoc(d, from + 1, i, end, lower);
      assert Part(d, from, i, lower) == s + Part(d, from + 1, i, lower);
    }
  }

  lemma {:induction false} PartEnds(d: seq<byte>, from: nat, i: nat, end: nat, lower: bool)
    requires from <= i <= end <= |d| && (forall j :: from <= j < i ==> d[j] != SPACE) && (i < end ==> d[i] == SPACE)
    ensures Part(d, from, end, lower) == Part(d, from, i, lower)
    decreases i - from
  {
    hide Shown;
    if from < i {
      PartEnds(d, from + 1, i, end, lower);
    }
  }

  method CopyPart(d: seq<byte>, from: nat, end: nat, lower: bool) returns (s: seq<byte>)
    requires from <= end <= |d|
    ensures s == Part(d, from, end, lower)
  {
    s := [];
    var i := from;
    while i < end && d[i] != SPACE
      invariant from <= i <= end && forall j :: from <= j < i ==> d[j] != SPACE
      invariant s == Part(d, from, i, lower)
    {
      PartSnoc(d, from, i, end, lower);
      s := s + [if lower && IsAscii(d[i]) then ToLower(d[i]) else d[i]];
      i := i + 1;
    }
    PartEnds(d, from, i, end, lower);
  }

  method ConvertBack(d: seq<byte>, lower: bool, extLower: bool) returns (s: seq<byte>)
    requires |d| == DOS_NAME_LENGTH
    ensures s == Back(d, lower, extLower)
  {
    s := [];
    if d[0] == REPLACE_KANJI {
      s := [KANJI_LEAD];
    }
    var primary := CopyPart(d, |s|, SHORT_NAME_LENGTH, lower);
    s := s + primary;
    if d[SHORT_NAME_LENGTH] == SPACE {
      return;
    }
    var extension := CopyPart(d, SHORT_NAME_LENGTH, DOS_NAME_LENGTH, extLower);
    s := s + [PERIOD] + extension;
  }

  // ----- from characters to the short name

  // What one character of a name leaves behind if nothing is lost.
  predicate Kept(c: byte, d: byte, lower: bool, upper: bool) {
    && d == ToUpper(c) && c != SPACE && c != PERIOD
    && (IsLower(c) ==> lower) && (IsUpper(c) ==> upper) && (IsAscii(c) || (lower && upper))
  }

  predicate KeptAt(name: seq<byte>, d: seq<byte>, j: nat, m: Mix)
    requires j < |name| && |d| == DOS_NAME_LENGTH
  {
    j < SHORT_NAME_LENGTH && Kept(name[j], d[j], m.lower, m.upper)
  }

  // The first c characters of the name, as far as the buffer is filled; `last` is the last period or the end.
  ghost predicate Copied(name: seq<byte>, last: nat, c: nat, i: nat, d: seq<byte>, m: Mix)
    requires last <= |name| && c <= |name| && |d| == DOS_NAME_LENGTH
  {
    && (forall j :: 0 <= j < c && j < last ==> KeptAt(name, d, j, m))
    && (c <= last ==> i == c && forall j :: i <= j < DOS_NAME_LENGTH ==> d[j] == SPACE)
    && (c > last ==> CopiedExt(name, last, c, i, d, m))
  }

  ghost predicate CopiedExt(name: seq<byte>, last: nat, c: nat, i: nat, d: seq<byte>, m: Mix)
    requires last < c <= |name| && |d| == DOS_NAME_LENGTH
  {
    && name[last] == PERIOD && i == SHORT_NAME_LENGTH + (c - last - 1) <= DOS_NAME_LENGTH
    && (forall j :: last <= j < SHORT_NAME_LENGTH || i <= j < DOS_NAME_LENGTH ==> d[j] == SPACE)
    && forall j :: SHORT_NAME_LENGTH <= j < i ==> KeptExt(name[last + 1 + (j - SHORT_NAME_LENGTH)], d[j], m)
  }

  // Behind the period, a character that is not ascii marks the part before it as mixed.
  predicate KeptExt(c: byte, d: byte, m: Mix) {
    && d == ToUpper(c) && c != SPACE && c != PERIOD
    && (IsLower(c) ==> m.extLower) && (IsUpper(c) ==> m.extUpper) && (IsAscii(c) || (m.lower && m.upper))
  }

  // The place of the last period, or the end of the name.
  method LastPeriod(name: seq<byte>) returns (last: nat)
    ensures last <= |name| && (last < |name| ==> name[last] == PERIOD)
    ensures forall j :: last < j < |name| ==> name[j] != PERIOD
    ensures last == |name| ==> forall j :: 0 <= j < |name| ==> name[j] != PERIOD
    ensures IsLastPeriod(name, last)
  {
    var k := |name|;
    while k > 0
      invariant 0 <= k <= |name| && forall j :: k <= j < |name| ==> name[j] != PERIOD
    {
      k := k - 1;
      if name[k] == PERIOD {
        return k;
      }
    }
    return |name|;
  }

  // The flags after one more character, at place i of the buffer.
  function Noted(m: Mix, c: byte, i: nat): Mix {
    if !IsAscii(c) then m.(lower := true, upper := true)
    else if IsLower(c) then if i < SHORT_NAME_LENGTH then m.(lower := true) else m.(extLower := true)
    else if IsUpper(c) then if i < SHORT_NAME_LENGTH then m.(upper := true) else m.(extUpper := true)
    else m
  }

  lemma CopyOne(name: seq<byte>, last: nat, c: nat, i: nat, d: seq<byte>, m: Mix)
    requires last <= |name| && c < |name| && |d| == DOS_NAME_LENGTH && i < DOS_NAME_LENGTH
    requires Copied(name, last, c, i, d, m) && name[c] != SPACE && name[c] != PERIOD && (last < |name| ==> name[last] == PERIOD)
    requires c < last ==> i < SHORT_NAME_LENGTH
    ensures Copied(name, last, c + 1, i + 1, d[i := ToUpper(name[c])], Noted(m, name[c], i))
  {
    var e, n := d[i := ToUpper(name[c])], Noted(m, name[c], i);
    forall j | 0 <= j < c + 1 && j < last ensures KeptAt(name, e, j, n) {
      if j < c {
        assert KeptAt(name, d, j, m);
      }
    }
  }

  lemma NoneCopied(name: seq<byte>, last: nat, d: seq<byte>, m: Mix)
    requires last <= |name| && |d| == DOS_NAME_LENGTH && forall j :: 0 <= j < |d| ==> d[j] == SPACE
    ensures Copied(name, last, 0, 0, d, m)
  {
  }

  lemma PeriodCopied(name: seq<byte>, last: nat, i: nat, d: seq<byte>, m: Mix)
    requires last < |name| && |d| == DOS_NAME_LENGTH && Copied(name, last, last, i, d, m) && name[last] == PERIOD
    ensures Copied(name, last, last + 1, SHORT_NAME_LENGTH, d, m)
  {
    hide Kept, KeptExt;
    assert last > 0 ==> KeptAt(name, d, last - 1, m);
  }

  lemma ValidAtLeast(c: byte, noCheck: bool)
    ensures !Invalid(c, noCheck) ==> c >= 0x20
  {
  }

  // A part whose characters were all kept in one case is read back as it was.
  lemma {:induction false} PartIs(d: seq<byte>, from: nat, end: nat, part: seq<byte>, lower: bool, upper: bool)
    requires from + |part| <= end <= |d| && (from + |part| < end ==> d[from + |part|] == SPACE)
    requires !(lower && upper) && forall j :: 0 <= j < |part| ==> Kept(part[j], d[from + j], lower, upper)
    ensures Part(d, from, end, lower) == part
    decreases |part|
  {
    if part != [] {
      assert Kept(part[0], d[from + 0], lower, upper);
      forall j | 0 <= j < |part[1..]| ensures Kept(part[1..][j], d[from + 1 + j], lower, upper) {
        assert Kept(part[j + 1], d[from + (j + 1)], lower, upper);
      }
      PartIs(d, from + 1, end, part[1..], lower, upper);
    }
  }

  lemma PrimaryIs(name: seq<byte>, last: nat, i: nat, d: seq<byte>, m: Mix)
    requires 0 < last <= |name| && |d| == DOS_NAME_LENGTH && Copied(name, last, |name|, i, d, m) && !Mixed(m)
    ensures Part(d, 0, SHORT_NAME_LENGTH, m.lower) == name[..last]
    ensures Kept(name[0], d[0], m.lower, m.upper) && last <= SHORT_NAME_LENGTH
  {
    hide Kept, KeptExt;
    assert KeptAt(name, d, last - 1, m) && KeptAt(name, d, 0, m);
    forall j | 0 <= j < last ensures Kept(name[..last][j], d[0 + j], m.lower, m.upper) {
      assert KeptAt(name, d, j, m);
    }
    PartIs(d, 0, SHORT_NAME_LENGTH, name[..last], m.lower, m.upper);
  }

  lemma ExtensionIs(name: seq<byte>, last: nat, i: nat, d: seq<byte>, m: Mix)
    requires last < |name| && |d| == DOS_NAME_LENGTH && CopiedExt(name, last, |name|, i, d, m) && !Mixed(m)
    ensures Part(d, SHORT_NAME_LENGTH, DOS_NAME_LENGTH, m.extLower) == name[last + 1..]
    ensures last + 1 < |name| <==> d[SHORT_NAME_LENGTH] != SPACE
  {
    hide Kept;
    var part := name[last + 1..];
    forall j | 0 <= j < |part| ensures Kept(part[j], d[SHORT_NAME_LENGTH + j], m.extLower, m.extUpper) {
      assert KeptExt(name[last + 1 + j], d[SHORT_NAME_LENGTH + j], m);
      ExtKept(name[last + 1 + j], d[SHORT_NAME_LENGTH + j], m);
    }
    PartIs(d, SHORT_NAME_LENGTH, DOS_NAME_LENGTH, part, m.extLower, m.extUpper);
    if part != [] {
      assert KeptExt(name[last + 1 + 0], d[SHORT_NAME_LENGTH + 0], m);
    }
  }

  lemma ExtKept(c: byte, d: byte, m: Mix)
    requires KeptExt(c, d, m) && !Mixed(m)
    ensures Kept(c, d, m.extLower, m.extUpper)
  {
  }

  lemma BackIs(name: seq<byte>, last: nat, i: nat, d: seq<byte>, m: Mix)
    requires 0 < last <= |name| && |d| == DOS_NAME_LENGTH && Copied(name, last, |name|, i, d, m) && !Mixed(m)
    requires name[0] >= 0x20 && (last == |name| ==> name[last - 1] != PERIOD)
    requires forall j :: last < j < |name| ==> name[j] != PERIOD
    ensures d[0] != KANJI_LEAD
    ensures Back(d, m.lower, m.extLower) == if name[|name| - 1] == PERIOD then name[..|name| - 1] else name
  {
    hide Part, CopiedExt;
    PrimaryIs(name, last, i, d, m);
    var primary := name[..last];
    if last < |name| {
      ExtensionIs(name, last, i, d, m);
      assert name == primary + [PERIOD] + name[last + 1..] by {
        PeriodAt(name, last, i, d, m);
      }
    } else {
      assert primary == name;
    }
  }

  lemma PeriodAt(name: seq<byte>, last: nat, i: nat, d: seq<byte>, m: Mix)
    requires last < |name| && |d| == DOS_NAME_LENGTH && CopiedExt(name, last, |name|, i, d, m)
    ensures name[last] == PERIOD
  {
  }

  // A character that is kept as it is, up to its case.
  predicate PlainChar(c: byte) {
    !Invalid(c, false) && c != SPACE && c != PERIOD && !Replaced(c)
  }

  ghost predicate PlainAt(name: seq<byte>, last: nat) {
    && 0 < last <= |name| && last <= SHORT_NAME_LENGTH
    && (last < |name| ==> name[last] == PERIOD && |name| - last - 1 <= DOS_NAME_LENGTH - SHORT_NAME_LENGTH)
    && forall j :: 0 <= j < |name| && j != last ==> PlainChar(name[j])
  }

  /** A name a short name has room for: eight characters, and up to three more behind the only period. */
  ghost predicate Plain(name: seq<byte>) {
    exists last: nat :: PlainAt(name, last)
  }

  // Ascii, and no letter in lower case.
  ghost predicate UpperOnly(name: seq<byte>) {
    forall j :: 0 <= j < |name| ==> IsAscii(name[j]) && !IsLower(name[j])
  }

  // Nothing was lost so far.
  ghost predicate PlainTo(name: seq<byte>, last: nat, c: nat) {
    c <= |name| && forall j :: 0 <= j < c && j != last ==> PlainChar(name[j])
  }

  lemma PlainLast(name: seq<byte>, last: nat, p: nat)
    requires PlainAt(name, p) && last <= |name| && (last < |name| ==> name[last] == PERIOD)
    requires last == |name| ==> forall j :: 0 <= j < |name| ==> name[j] != PERIOD
    ensures p == last
  {
  }

  lemma PlainDone(name: seq<byte>, last: nat, i: nat, d: seq<byte>, m: Mix)
    requires 0 < last <= |name| && |d| == DOS_NAME_LENGTH && Copied(name, last, |name|, i, d, m) && PlainTo(name, last, |name|)
    ensures PlainAt(name, last)
  {
    hide Kept, KeptExt, PlainChar;
    assert KeptAt(name, d, last - 1, m);
  }

  lemma NotedUpper(m: Mix, c: byte, i: nat)
    requires IsAscii(c) && !IsLower(c)
    ensures Noted(m, c, i).lower == m.lower && Noted(m, c, i).extLower == m.extLower
  {
  }

  // ----- which names are refused, and what is stored of the others

  function Stripped(given: seq<byte>): (name: seq<byte>)
    ensures |name| <= |given| && name == given[|given| - |name|..]
  {
    if given != [] && (given[0] == SPACE || given[0] == PERIOD) then Stripped(given[1..]) else given
  }

  /** Nothing is left of it, or it ends as no short name may, or it holds a character that no name may. */
  ghost predicate Refused(name: seq<byte>, check: bool, noCheck: bool) {
    || name == []
    || (!check && (name[|name| - 1] == PERIOD || name[|name| - 1] == SPACE))
    || (check && exists j :: 0 <= j < |name| && Invalid(name[j], noCheck))
  }

  // The first s characters are those that are stripped.
  lemma {:induction false} StrippedIs(given: seq<byte>, s: nat)
    requires s <= |given| && forall j :: 0 <= j < s ==> given[j] == SPACE || given[j] == PERIOD
    requires s < |given| ==> given[s] != SPACE && given[s] != PERIOD
    ensures Stripped(given) == given[s..]
    decreases s
  {
    if s > 0 {
      StrippedIs(given[1..], s - 1);
      assert given[1..][s - 1..] == given[s..];
    }
  }

  ghost predicate SomeLower(name: seq<byte>, a: nat, b: nat) {
    exists j: nat :: a <= j < b && j < |name| && IsLower(name[j])
  }

  ghost predicate SomeUpper(name: seq<byte>, a: nat, b: nat) {
    exists j: nat :: a <= j < b && j < |name| && IsUpper(name[j])
  }

  ghost predicate SomeOther(name: seq<byte>, b: nat) {
    exists j: nat :: j < b && j < |name| && !IsAscii(name[j])
  }

  /** The cases noted are those of the letters, before the last period and behind it; a character that
      is not ascii counts as both cases of the part before. */
  ghost predicate Flags(name: seq<byte>, last: nat, c: nat, m: Mix) {
    && (m.lower <==> SomeLower(name, 0, if c < last then c else last) || SomeOther(name, c))
    && (m.upper <==> SomeUpper(name, 0, if c < last then c else last) || SomeOther(name, c))
    && (m.extLower <==> SomeLower(name, last, c))
    && (m.extUpper <==> SomeUpper(name, last, c))
  }

  lemma FlagOne(name: seq<byte>, last: nat, c: nat, i: nat, m: Mix)
    requires c < |name| && Flags(name, last, c, m) && c != last && (c < last <==> i < SHORT_NAME_LENGTH)
    ensures Flags(name, last, c + 1, Noted(m, name[c], i))
  {
    assert SomeOther(name, c + 1) <==> SomeOther(name, c) || !IsAscii(name[c]);
    if c < last {
      assert SomeLower(name, 0, c + 1) <==> SomeLower(name, 0, c) || IsLower(name[c]);
      assert SomeUpper(name, 0, c + 1) <==> SomeUpper(name, 0, c) || IsUpper(name[c]);
    } else {
      assert SomeLower(name, last, c + 1) <==> SomeLower(name, last, c) || IsLower(name[c]);
      assert SomeUpper(name, last, c + 1) <==> SomeUpper(name, last, c) || IsUpper(name[c]);
    }
  }

  lemma FlagPeriod(name: seq<byte>, last: nat, m: Mix)
    requires last < |name| && name[last] == PERIOD && Flags(name, last, last, m)
    ensures Flags(name, last, last + 1, m)
  {
  }

  lemma NoFlags(name: seq<byte>, last: nat)
    ensures Flags(name, last, 0, Mix(false, false, false, false))
  {
  }

  // The one first byte that a short name may not have is replaced.
  function Kanji(d: seq<byte>): seq<byte>
    requires d != []
  {
    if d[0] == KANJI_LEAD then d[0 := REPLACE_KANJI] else d
  }

  lemma KanjiIs(d: seq<byte>)
    requires d != []
    ensures Kanji(d) == if d[0] == KANJI_LEAD then d[0 := REPLACE_KANJI] else d
    ensures d[0] != 0 ==> !FreeMark(Kanji(d)[0] as nat)
  {
  }

  predicate IsLastPeriod(name: seq<byte>, last: nat) {
    && last <= |name| && (last < |name| ==> name[last] == PERIOD)
    && (forall j :: last < j < |name| ==> name[j] != PERIOD)
    && (last == |name| ==> PERIOD !in name)
  }

  /** What is stored of a name of which nothing is lost: its characters in upper case, those behind the
      last period from the ninth place on, and the cases they had. */
  ghost predicate StoredAs(name: seq<byte>, d: seq<byte>, m: Mix) {
    exists last: nat, i: nat, e: seq<byte> ::
      && IsLastPeriod(name, last) && |e| == DOS_NAME_LENGTH && d == Kanji(e)
      && Copied(name, last, |name|, i, e, m) && Flags(name, last, |name|, m)
  }

  // ----- what fills the eleven places, of any name

  function Letter(c: byte): byte {
    if Replaced(c) then UNDERSCORE else ToUpper(c)
  }

  // The characters that get a place.
  function Letters(s: seq<byte>): seq<byte> {
    if s == [] then []
    else
      var c := s[|s| - 1];
      Letters(s[..|s| - 1]) + if c == SPACE || c == PERIOD then [] else [Letter(c)]
  }

  function Pad(s: seq<byte>, n: nat): (p: seq<byte>)
    ensures |p| == n
  {
    seq(n, j => if 0 <= j < |s| then s[j] else SPACE)
  }

  function Extension(name: seq<byte>, last: nat, c: nat): seq<byte>
    requires last < c
  {
    if c <= |name| then name[last + 1..c] else []
  }

  /** Eight places for the characters before the last period and three for those behind it, without
      spaces and periods, in upper case, and with an underscore for those a short name may not have. */
  ghost predicate FilledAs(name: seq<byte>, last: nat, d: seq<byte>) {
    && last <= |name|
    && d == Pad(Letters(name[..last]), SHORT_NAME_LENGTH)
            + Pad(Letters(if last < |name| then name[last + 1..] else []), DOS_NAME_LENGTH - SHORT_NAME_LENGTH)
  }

  /** What is stored of a name. */
  ghost predicate ShortOf(name: seq<byte>, d: seq<byte>) {
    exists last: nat, e: seq<byte> :: IsLastPeriod(name, last) && FilledAs(name, last, e) && e != [] && d == Kanji(e)
  }

  // The first c characters have their places, and i is the next one.
  ghost predicate Filling(name: seq<byte>, last: nat, c: nat, i: nat, d: seq<byte>) {
    && IsLastPeriod(name, last) && |d| == DOS_NAME_LENGTH && (c <= |name| || (c == |name| + 1 && last == |name|))
    && if c <= last then
         && i == |Letters(name[..c])| <= SHORT_NAME_LENGTH && (c < last ==> i < SHORT_NAME_LENGTH)
         && d == Pad(Letters(name[..c]), SHORT_NAME_LENGTH) + Pad([], DOS_NAME_LENGTH - SHORT_NAME_LENGTH)
       else
         && i == SHORT_NAME_LENGTH + |Letters(Extension(name, last, c))| <= DOS_NAME_LENGTH
         && d == Pad(Letters(name[..last]), SHORT_NAME_LENGTH)
                 + Pad(Letters(Extension(name, last, c)), DOS_NAME_LENGTH - SHORT_NAME_LENGTH)
  }

  lemma {:induction false} LettersGrow(s: seq<byte>, a: nat, b: nat)
    requires a <= b <= |s|
    ensures Letters(s[..a]) <= Letters(s[..b])
  {
    if a < b {
      LettersGrow(s, a, b - 1);
      assert s[..b][..b - 1] == s[..b - 1];
    }
  }

  lemma LettersNext(s: seq<byte>, c: nat)
    requires c < |s|
    ensures Letters(s[..c + 1]) == Letters(s[..c]) + if s[c] == SPACE || s[c] == PERIOD then [] else [Letter(s[c])]
  {
    assert s[..c + 1][..c] == s[..c];
  }

  lemma FillsFrom(name: seq<byte>, last: nat, d: seq<byte>)
    requires IsLastPeriod(name, last) && |d| == DOS_NAME_LENGTH && forall j :: 0 <= j < |d| ==> d[j] == SPACE
    ensures Filling(name, last, 0, 0, d)
  {
    assert name[..0] == [];
  }

  lemma FillsNone(name: seq<byte>, last: nat, c: nat, i: nat, d: seq<byte>)
    requires Filling(name, last, c, i, d) && c < |name| && c != last && (name[c] == SPACE || name[c] == PERIOD)
    ensures Filling(name, last, c + 1, i, d)
  {
    hide Letters;
    if c < last {
      LettersNext(name, c);
    } else {
      var x := name[last + 1..];
      assert x[..c - last - 1] == name[last + 1..c] && x[..c - last] == name[last + 1..c + 1];
      LettersNext(x, c - last - 1);
    }
  }

  lemma FillsPeriod(name: seq<byte>, last: nat, i: nat, d: seq<byte>)
    requires Filling(name, last, last, i, d)
    ensures Filling(name, last, last + 1, SHORT_NAME_LENGTH, d)
  {
    assert Extension(name, last, last + 1) == [];
  }

  lemma FillsOne(name: seq<byte>, last: nat, c: nat, i: nat, d: seq<byte>)
    requires Filling(name, last, c, i, d) && c < |name| && i < DOS_NAME_LENGTH
    requires name[c] != SPACE && name[c] != PERIOD
    ensures if c + 1 < last && i + 1 == SHORT_NAME_LENGTH
            then Filling(name, last, last + 1, i + 1, d[i := Letter(name[c])])
            else Filling(name, last, c + 1, i + 1, d[i := Letter(name[c])])
  {
    hide Letters, Letter;
    var e := d[i := Letter(name[c])];
    if c < last {
      LettersNext(name, c);
      assert e == Pad(Letters(name[..c + 1]), SHORT_NAME_LENGTH) + Pad([], DOS_NAME_LENGTH - SHORT_NAME_LENGTH);
      if c + 1 < last && i + 1 == SHORT_NAME_LENGTH {
        LettersGrow(name, c + 1, last);
        assert Pad(Letters(name[..c + 1]), SHORT_NAME_LENGTH) == Pad(Letters(name[..last]), SHORT_NAME_LENGTH);
        NoLetters(name, last);
      }
    } else {
      var x := name[last + 1..];
      assert x[..c - last - 1] == name[last + 1..c] && x[..c - last] == name[last + 1..c + 1];
      LettersNext(x, c - last - 1);
    }
  }

  lemma NoLetters(name: seq<byte>, last: nat)
    requires last <= |name|
    ensures Letters(Extension(name, last, last + 1)) == []
  {
  }

  lemma FillsAll(name: seq<byte>, last: nat, c: nat, i: nat, d: seq<byte>)
    requires Filling(name, last, c, i, d) && (i >= DOS_NAME_LENGTH || c >= |name|)
    ensures FilledAs(name, last, d)
  {
    hide Letters;
    NoLetters(name, last);
    if last < c < |name| {
      var x := name[last + 1..];
      assert x[..c - last - 1] == name[last + 1..c] && x[..|x|] == x;
      LettersGrow(x, c - last - 1, |x|);
      assert Pad(Letters(x[..c - last - 1]), 3) == Pad(Letters(x), 3);
    } else if c == |name| && c <= last {
      assert name[..c] == name[..last];
    } else {
      assert last < |name| && c == |name| ==> Extension(name, last, c) == name[last + 1..];
    }
  }

  // Nothing is lost so far, and c characters are stored.
  ghost predicate Going(name: seq<byte>, last: nat, c: nat, i: nat, d: seq<byte>, m: Mix) {
    && IsLastPeriod(name, last) && c <= |name| && |d| == DOS_NAME_LENGTH
    && Copied(name, last, c, i, d, m) && Flags(name, last, c, m) && (c < last ==> i < SHORT_NAME_LENGTH)
    && i == if c <= last then c else SHORT_NAME_LENGTH + (c - last - 1)
  }

  lemma GoOn(name: seq<byte>, last: nat, c: nat, i: nat, d: seq<byte>, m: Mix)
    requires Going(name, last, c, i, d, m) && c < |name| && i < DOS_NAME_LENGTH && name[c] != SPACE && name[c] != PERIOD
    requires c + 1 < last ==> i + 1 < SHORT_NAME_LENGTH
    ensures Going(name, last, c + 1, i + 1, d[i := ToUpper(name[c])], Noted(m, name[c], i))
  {
    hide Copied, Flags, Noted, ToUpper;
    CopyOne(name, last, c, i, d, m);
    FlagOne(name, last, c, i, m);
  }

  lemma GoOver(name: seq<byte>, last: nat, i: nat, d: seq<byte>, m: Mix)
    requires Going(name, last, last, i, d, m) && last < |name|
    ensures Going(name, last, last + 1, SHORT_NAME_LENGTH, d, m)
  {
    hide Copied, Flags;
    PeriodCopied(name, last, i, d, m);
    FlagPeriod(name, last, m);
  }

  lemma GoFrom(name: seq<byte>, last: nat, d: seq<byte>)
    requires IsLastPeriod(name, last) && |d| == DOS_NAME_LENGTH && forall j :: 0 <= j < |d| ==> d[j] == SPACE
    requires name != [] && name[0] != PERIOD
    ensures Going(name, last, 0, 0, d, Mix(false, false, false, false))
  {
    hide Copied, Flags;
    NoneCopied(name, last, d, Mix(false, false, false, false));
    NoFlags(name, last);
  }

  lemma GoneAll(name: seq<byte>, last: nat, c: nat, i: nat, d: seq<byte>, m: Mix)
    requires Going(name, last, c, i, d, m)
    ensures c <= |name| && |d| == DOS_NAME_LENGTH && Copied(name, last, c, i, d, m)
    ensures i == if c <= last then c else SHORT_NAME_LENGTH + (c - last - 1)
    ensures c < last ==> i < SHORT_NAME_LENGTH
    ensures c == |name| ==> StoredAs(name, Kanji(d), m)
  {
  }

  lemma LetterIs(c: byte)
    ensures Letter(c) == if Replaced(c) then UNDERSCORE else ToUpper(c)
  {
  }

  lemma NotLast(name: seq<byte>, last: nat, c: nat)
    requires IsLastPeriod(name, last) && c < |name| && name[c] == SPACE
    ensures c != last
  {
  }

  lemma OnlyLast(name: seq<byte>, last: nat, c: nat)
    requires IsLastPeriod(name, last) && last <= c < |name| && name[c] == PERIOD
    ensures c == last
  {
  }

  lemma NotZero(c: byte)
    ensures c != 0 ==> ToUpper(c) != 0
  {
  }

  lemma PeriodValid(noCheck: bool)
    ensures !Invalid(PERIOD, noCheck)
  {
  }

  // Whether a stretch of the name holds a character that no name may.
  method CheckRest(name: seq<byte>, from: nat, end: nat, noCheck: bool) returns (bad: bool)
    requires end <= |name|
    ensures bad <==> exists j :: from <= j < end && Invalid(name[j], noCheck)
  {
    var c := from;
    while c < end
      invariant from <= c && forall j :: from <= j < c && j < end ==> !Invalid(name[j], noCheck)
    {
      if Invalid(name[c], noCheck) {
        return true;
      }
      c := c + 1;
    }
    return false;
  }

  // No character so far was invalid.
  ghost predicate Checked(name: seq<byte>, c: nat, check: bool, noCheck: bool) {
    check ==> forall j :: 0 <= j < c && j < |name| ==> !Invalid(name[j], noCheck)
  }

  ghost predicate AllValid(name: seq<byte>, check: bool, noCheck: bool) {
    Checked(name, |name|, check, noCheck)
  }

  lemma CheckedNone(name: seq<byte>, check: bool, noCheck: bool)
    ensures Checked(name, 0, check, noCheck)
  {
  }

  lemma CheckedNext(name: seq<byte>, c: nat, check: bool, noCheck: bool)
    requires Checked(name, c, check, noCheck) && c < |name| && (check ==> !Invalid(name[c], noCheck))
    ensures Checked(name, c + 1, check, noCheck)
  {
  }

  lemma CheckedFails(name: seq<byte>, c: nat, noCheck: bool)
    requires c < |name| && Invalid(name[c], noCheck)
    ensures !AllValid(name, true, noCheck)
  {
  }

  lemma CheckedTo(name: seq<byte>, c: nat, end: nat, check: bool, noCheck: bool)
    requires Checked(name, c, check, noCheck) && (c <= end || |name| <= c)
    requires check ==> forall j :: c <= j < end && j < |name| ==> !Invalid(name[j], noCheck)
    ensures Checked(name, end, check, noCheck)
  {
  }

  lemma UpperAt(name: seq<byte>, c: nat)
    requires c < |name| && UpperOnly(name)
    ensures IsAscii(name[c]) && !IsLower(name[c])
  {
  }

  // Nothing is lost exactly as long as all characters are plain.
  ghost predicate InPlain(name: seq<byte>, last: nat, c: nat, lossy: bool) {
    (PlainAt(name, last) ==> !lossy) && (!lossy ==> PlainTo(name, last, c))
  }

  // One more character: it is plain, or something is lost.
  lemma PlainNext(name: seq<byte>, last: nat, c: nat, i: nat, was: bool, lossy: bool)
    requires InPlain(name, last, c, was) && c < |name| && IsLastPeriod(name, last) && !Invalid(name[c], false) && (was ==> lossy)
    requires !was ==> i == if c <= last then c else SHORT_NAME_LENGTH + (c - last - 1)
    requires lossy && !was ==>
               || name[c] == SPACE || (name[c] == PERIOD && c < last) || Replaced(name[c])
               || (i + 1 == SHORT_NAME_LENGTH && c + 1 < last)
    requires !lossy ==> name[c] != SPACE && if name[c] == PERIOD then c >= last else !Replaced(name[c])
    ensures InPlain(name, last, c + 1, lossy)
  {
  }

  lemma PlainLost(name: seq<byte>, last: nat, c: nat, b: nat, lossy: bool)
    requires InPlain(name, last, c, lossy) && (b == c || lossy)
    ensures InPlain(name, last, b, lossy)
  {
  }

  // The places ran out before the characters did.
  lemma PlainFits(name: seq<byte>, last: nat, c: nat, i: nat, lossy: bool)
    requires InPlain(name, last, c, lossy) && i >= DOS_NAME_LENGTH && c < |name|
    requires !lossy ==> i == if c <= last then c else SHORT_NAME_LENGTH + (c - last - 1)
    ensures InPlain(name, last, c, true)
  {
  }

  lemma PlainAll(name: seq<byte>, last: nat, i: nat, d: seq<byte>, m: Mix, lossy: bool)
    requires InPlain(name, last, |name|, lossy) && (!lossy ==> 0 < last && Going(name, last, |name|, i, d, m))
    ensures !lossy <==> PlainAt(name, last)
  {
    if !lossy {
      PlainDone(name, last, i, d, m);
    }
  }

  lemma LastSays(name: seq<byte>, last: nat)
    requires IsLastPeriod(name, last) && name != [] && name[0] != PERIOD
    ensures 0 < last <= |name| && (last < |name| ==> name[last] == PERIOD) && forall j :: last < j < |name| ==> name[j] != PERIOD
  {
  }

  lemma PlainStarts(name: seq<byte>, last: nat)
    ensures InPlain(name, last, 0, false)
  {
  }

  // The place behind the last character of a name of which nothing is lost.
  function EndPlace(name: seq<byte>, last: nat): nat
    requires last <= |name|
  {
    if last == |name| then last else SHORT_NAME_LENGTH + (|name| - last - 1)
  }

  lemma TurnsBack(name: seq<byte>, last: nat, i: nat, d: seq<byte>, m: Mix, check: bool, noCheck: bool)
    requires name != [] && name[0] != PERIOD && Going(name, last, |name|, i, d, m) && AllValid(name, check, noCheck)
    ensures |d| == DOS_NAME_LENGTH && StoredAs(name, Kanji(d), m)
    ensures check && !Mixed(m) ==>
              Back(Kanji(d), m.lower, m.extLower) == if name[|name| - 1] == PERIOD then name[..|name| - 1] else name
  {
    hide Back, Copied, Flags, StoredAs;
    GoneAll(name, last, |name|, i, d, m);
    if check && !Mixed(m) {
      ValidAtLeast(name[0], noCheck);
      BackIs(name, last, i, d, m);
    }
  }

  // How many spaces and periods the name begins with.
  method SkipLeading(given: seq<byte>) returns (start: nat)
    ensures start <= |given| && given[start..] == Stripped(given)
    ensures start > 0 ==> given[0] == SPACE || given[0] == PERIOD
    ensures start < |given| ==> given[start] != SPACE && given[start] != PERIOD
  {
    start := 0;
    while start < |given| && (given[start] == SPACE || given[start] == PERIOD)
      invariant 0 <= start <= |given| && forall j :: 0 <= j < start ==> given[j] == SPACE || given[j] == PERIOD
    {
      start := start + 1;
    }
    StrippedIs(given, start);
  }

  // Fills the eleven places, character by character.
  method StoreChars(name: seq<byte>, last: nat, check: bool, noCheck: bool) returns (r: Result<(seq<byte>, Status)>)
    requires name != [] && name[0] != SPACE && name[0] != PERIOD && IsLastPeriod(name, last)
    ensures if AllValid(name, check, noCheck) then r.Ok? else r == Err(EINVAL)
    ensures r.Ok? ==> |r.value.0| == DOS_NAME_LENGTH && (0 !in name ==> r.value.0[0] != 0)
    ensures r.Ok? ==> FilledAs(name, last, r.value.0)
    ensures r.Ok? && !r.value.1.lossy ==>
              Going(name, last, |name|, EndPlace(name, last), r.value.0, r.value.1.mix)
    ensures r.Ok? && check && !noCheck ==> (!r.value.1.lossy <==> PlainAt(name, last))
    ensures r.Ok? && UpperOnly(name) ==> !r.value.1.mix.lower && !r.value.1.mix.extLower
  {
    hide Invalid, Going, IsLastPeriod, Noted, ToUpper, Replaced, PlainChar, InPlain, PlainAt, PlainTo, Checked, UpperOnly,
         Copied, Flags, StoredAs, Kanji, Filling, FilledAs, Letter, Letters, Pad;
    ghost var upper, strict, noZero := UpperOnly(name), check && !noCheck, 0 !in name;
    LastSays(name, last);
    var d: seq<byte> := [SPACE, SPACE, SPACE, SPACE, SPACE, SPACE, SPACE, SPACE, SPACE, SPACE, SPACE];
    var m, lossy := Mix(false, false, false, false), false;
    var i, c := 0, 0;
    GoFrom(name, last, d);
    PlainStarts(name, last);
    FillsFrom(name, last, d);
    CheckedNone(name, check, noCheck);
    while i < DOS_NAME_LENGTH && c < |name|
      invariant 0 <= i <= DOS_NAME_LENGTH && 0 <= c && |d| == DOS_NAME_LENGTH && (c <= |name| || lossy)
      invariant !lossy ==> Going(name, last, c, i, d, m)
      invariant Filling(name, last, c, i, d)
      invariant Checked(name, c, check, noCheck)
      invariant strict ==> InPlain(name, last, c, lossy)
      invariant noZero ==> d[0] != 0
      invariant upper ==> !m.lower && !m.extLower
      decreases |name| - c
    {
      if !lossy {
        GoneAll(name, last, c, i, d, m);
      }
      ghost var c0, i0, was := c, i, lossy;
      NotZero(name[c]);
      if check && Invalid(name[c], noCheck) {
        CheckedFails(name, c, noCheck);
        return Err(EINVAL);
      }
      CheckedNext(name, c, check, noCheck);
      if name[c] == SPACE {
        NotLast(name, last, c);
        FillsNone(name, last, c, i, d);
        lossy := true;
      } else if name[c] == PERIOD {
        if c < last {
          FillsNone(name, last, c, i, d);
          lossy := true;
        } else {
          OnlyLast(name, last, c);
          FillsPeriod(name, last, i, d);
          if !lossy {
            GoOver(name, last, i, d, m);
          }
          i := SHORT_NAME_LENGTH;
        }
      } else {
        if !lossy && !(i + 1 == SHORT_NAME_LENGTH && c + 1 < last) {
          GoOn(name, last, c, i, d, m);
        }
        FillsOne(name, last, c, i, d);
        LetterIs(name[c]);
        if Replaced(name[c]) {
          d := d[i := UNDERSCORE];
          lossy := true;
        } else {
          if upper {
            UpperAt(name, c);
            NotedUpper(m, name[c], i);
          }
          m := Noted(m, name[c], i);
          d := d[i := ToUpper(name[c])];
        }
        i := i + 1;
        if i == SHORT_NAME_LENGTH && c + 1 < last {
          lossy := true;
          if check {
            var bad := CheckRest(name, c + 1, last, noCheck);
            if bad {
              ghost var j :| c + 1 <= j < last && Invalid(name[j], noCheck);
              CheckedFails(name, j, noCheck);
              return Err(EINVAL);
            }
          }
          PeriodValid(noCheck);
          CheckedTo(name, c + 1, last + 1, check, noCheck);
          c := last;
        }
      }
      c := c + 1;
      if strict {
        PlainNext(name, last, c0, i0, was, lossy);
        PlainLost(name, last, c0 + 1, c, lossy);
      }
    }
    if !lossy {
      GoneAll(name, last, c, i, d, m);
    }
    if c < |name| {
      if strict {
        PlainFits(name, last, c, i, lossy);
      }
      lossy := true;
      if check {
        var bad := CheckRest(name, c, |name|, noCheck);
        if bad {
          ghost var j :| c <= j < |name| && Invalid(name[j], noCheck);
          CheckedFails(name, j, noCheck);
          return Err(EINVAL);
        }
      }
    }
    FillsAll(name, last, c, i, d);
    CheckedTo(name, c, |name|, check, noCheck);
    if strict {
      PlainLost(name, last, c, |name|, lossy);
      PlainAll(name, last, i, d, m, lossy);
    }
    return Ok((d, Status(m, lossy)));
  }

  lemma ShortIs(name: seq<byte>, last: nat, d: seq<byte>)
    requires IsLastPeriod(name, last) && FilledAs(name, last, d) && d != []
    ensures ShortOf(name, Kanji(d))
  {
  }

  lemma PlainOnce(name: seq<byte>, last: nat)
    requires IsLastPeriod(name, last)
    ensures Plain(name) <==> PlainAt(name, last)
  {
    if p: nat :| PlainAt(name, p) {
      PlainLast(name, last, p);
    }
  }

  lemma NotPlain(name: seq<byte>)
    requires name == [] || name[0] == SPACE || name[0] == PERIOD
    ensures !Plain(name)
  {
    forall p: nat ensures !PlainAt(name, p) {
      NotPlainAt(name, p);
    }
  }

  lemma NotPlainAt(name: seq<byte>, p: nat)
    requires name == [] || name[0] == SPACE || name[0] == PERIOD
    ensures !PlainAt(name, p)
  {
  }

  lemma PlainValid(name: seq<byte>, last: nat)
    ensures PlainAt(name, last) && IsLastPeriod(name, last) ==> AllValid(name, true, false)
  {
  }

  lemma RefusedIs(name: seq<byte>, check: bool, noCheck: bool)
    ensures Refused(name, check, noCheck) <==>
              || name == [] || (!check && (name[|name| - 1] == PERIOD || name[|name| - 1] == SPACE))
              || !AllValid(name, check, noCheck)
  {
  }

  lemma UpperPart(name: seq<byte>, s: nat)
    requires s <= |name|
    ensures UpperOnly(name) ==> UpperOnly(name[s..])
    ensures 0 !in name ==> 0 !in name[s..]
  {
  }

  /** Converts a name. Nothing is lost exactly when it is a plain one. Then, unless cases are
      mixed, the short name with its case flags turns back into the very same name, except
      for a period at the end, which is gone. */
  method ConvertToDos(given: seq<byte>, check: bool, noCheck: bool) returns (r: Result<(seq<byte>, Status)>)
    ensures r.Ok? ==> |r.value.0| == DOS_NAME_LENGTH
    ensures if Refused(Stripped(given), check, noCheck) then r == Err(EINVAL) else r.Ok?
    ensures r.Ok? && 0 !in given ==> !FreeMark(r.value.0[0] as nat)
    ensures r.Ok? ==> ShortOf(Stripped(given), r.value.0)
    ensures r.Ok? && !r.value.1.lossy ==> StoredAs(given, r.value.0, r.value.1.mix)
    ensures check && !noCheck ==> (r.Ok? && !r.value.1.lossy <==> Plain(given))
    ensures r.Ok? && UpperOnly(given) ==> !Mixed(r.value.1.mix)
    ensures r.Ok? && check && !r.value.1.lossy && !Mixed(r.value.1.mix) ==>
              var (d, status) := r.value;
              && given != []
              && Back(d, status.mix.lower, status.mix.extLower)
                 == if given[|given| - 1] == PERIOD then given[..|given| - 1] else given
  {
    hide Back, Part, Copied, Flags, Stripped, Invalid, Going, StoredAs, IsLastPeriod, PlainChar, PlainAt, PlainTo, Plain,
         Refused, AllValid, UpperOnly, Kanji, EndPlace, Checked, FreeMark, FilledAs, ShortOf;
    var start := SkipLeading(given);
    var name := given[start..];
    RefusedIs(name, check, noCheck);
    if start > 0 || name == [] {
      NotPlain(given);
    }
    if name == [] {
      return Err(EINVAL);
    }
    var n := |name|;
    if !check && (name[n - 1] == PERIOD || name[n - 1] == SPACE) {
      return Err(EINVAL);
    }
    var last := LastPeriod(name);
    LastSays(name, last);
    PlainValid(name, last);
    if start == 0 {
      assert name == given;
      PlainOnce(given, last);
    }
    var stored := StoreChars(name, last, check, noCheck);
    if stored.Err? {
      return stored;
    }
    var (d, status) := stored.value;
    UpperPart(given, start);
    if !status.lossy {
      TurnsBack(name, last, EndPlace(name, last), d, status.mix, check, noCheck);
    }
    KanjiIs(d);
    ShortIs(name, last, d);
    if d[0] == KANJI_LEAD {
      d := d[0 := REPLACE_KANJI];
    }
    return Ok((d, Status(status.mix, status.lossy || start > 0 || noCheck)));
  }

  /** A name that loses its period: "A." is stored, and read back as "A". */
  method PeriodLost() returns (s: seq<byte>)
    ensures s == [0x41]
  {
    var name: seq<byte> := [0x41, PERIOD];
    assert PlainAt(name, 1);
    assert UpperOnly(name);
    var r := ConvertToDos(name, true, false);
    var (d, status) := r.value;
    s := ConvertBack(d, status.mix.lower, status.mix.extLower);
  }
}
