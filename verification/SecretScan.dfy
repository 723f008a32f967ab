/**
 * secret-scan.ts: a file read in overlapping chunks and each chunk searched, and a cache of verdicts over a
 * snapshot's files.
 */
module SecretScan {
  import opened Options

  type Byte = b: int | 0 <= b < 256

  const CHUNK: nat := 1_048_576
  const OVERLAP: nat := 4_096
  const SNIFF: nat := 8_192

  // ---- What a file's bytes read as ----

  datatype Encoding = Latin1 | LittleEndian | BigEndian

  function Width(e: Encoding): nat { if e.Latin1? then 1 else 2 }

  /** Code unit i of the bytes. */
  function Unit(e: Encoding, data: seq<Byte>, i: nat): int
    requires (i + 1) * Width(e) <= |data|
  {
    match e
    case Latin1 => data[i] as int
    case LittleEndian => data[2 * i] as int + 256 * (data[2 * i + 1] as int)
    case BigEndian => 256 * (data[2 * i] as int) + data[2 * i + 1] as int
  }

  function UnitCount(e: Encoding, data: seq<Byte>): (n: nat)
    ensures n * Width(e) <= |data|
  {
    |data| / Width(e)
  }

  /** The text of the bytes; a last odd byte of wide text is dropped. */
  function Text(e: Encoding, data: seq<Byte>): (text: seq<int>)
    ensures |text| == UnitCount(e, data)
    ensures forall i | 0 <= i < |text| :: text[i] == Unit(e, data, i)
  {
    seq(UnitCount(e, data), i requires 0 <= i < UnitCount(e, data) => Unit(e, data, i))
  }

  /** Reading from a place that is not in the middle of a unit gives a stretch of the whole text. */
  lemma TextOfStretch(e: Encoding, data: seq<Byte>, from: nat, n: nat)
    requires from % 2 == 0 && from + n <= |data|
    ensures var w := Width(e); var part := Text(e, data[from..from + n]);
      from / w + |part| <= |Text(e, data)| && part == Text(e, data)[from / w..from / w + |part|]
  {
    var w := Width(e);
    var part := data[from..from + n];
    forall i: nat | i < UnitCount(e, part)
      ensures from / w + i < UnitCount(e, data) && Unit(e, part, i) == Unit(e, data, from / w + i)
    {
    }
  }

  // ---- Binary or text ----

  function Zeros(head: seq<Byte>, from: nat, pairs: nat): nat
    requires from <= 1 && 2 * pairs <= |head|
  {
    if pairs == 0 then 0 else Zeros(head, from, pairs - 1) + if head[2 * (pairs - 1) + from] == 0 then 1 else 0
  }

  function WideOf(head: seq<Byte>): Option<Encoding> {
    var pairs := |head| / 2;
    if |head| >= 2 && head[0] == 255 && head[1] == 254 then Some(LittleEndian)
    else if |head| >= 2 && head[0] == 254 && head[1] == 255 then Some(BigEndian)
    else if pairs < 8 then None
    else if 10 * Zeros(head, 1, pairs) >= 9 * pairs && 10 * Zeros(head, 0, pairs) <= pairs then Some(LittleEndian)
    else if 10 * Zeros(head, 0, pairs) >= 9 * pairs && 10 * Zeros(head, 1, pairs) <= pairs then Some(BigEndian)
    else None
  }

  /** utf16Of */
  method Utf16Of(head: seq<Byte>) returns (e: Option<Encoding>)
    ensures e == WideOf(head)
  {
    if |head| >= 2 && head[0] == 255 && head[1] == 254 { return Some(LittleEndian); }
    if |head| >= 2 && head[0] == 254 && head[1] == 255 { return Some(BigEndian); }
    var pairs := |head| / 2;
    if pairs < 8 { return None; }
    var oddZero, evenZero := 0, 0;
    for i := 0 to pairs
      invariant evenZero == Zeros(head, 0, i) && oddZero == Zeros(head, 1, i)
    {
      if head[2 * i] == 0 { evenZero := evenZero + 1; }
      if head[2 * i + 1] == 0 { oddZero := oddZero + 1; }
    }
    if 10 * oddZero >= 9 * pairs && 10 * evenZero <= pairs { return Some(LittleEndian); }
    if 10 * evenZero >= 9 * pairs && 10 * oddZero <= pairs { return Some(BigEndian); }
    return None;
  }

  /** How the head of a file says to read it: none for a binary file. */
  function ReadAs(data: seq<Byte>): Option<Encoding> {
    var head := data[..if |data| < SNIFF then |data| else SNIFF];
    var wide := WideOf(head);
    if wide.Some? then wide else if 0 in head then None else Some(Latin1)
  }

  // ---- Chunks ----

  /** Where the chunk after the one at `pos` begins. */
  function NextChunk(pos: nat): nat { pos + CHUNK - OVERLAP }

  function ChunkEnd(size: nat, pos: nat): nat
    requires pos <= size
  {
    if pos + CHUNK < size then pos + CHUNK else size
  }

  /** Some chunk from `pos` on holds what is searched for. */
  ghost predicate HitFrom(data: seq<Byte>, e: Encoding, hasSecret: seq<int> -> bool, pos: nat)
    requires pos <= |data|
    decreases |data| - pos
  {
    pos < |data| &&
    (hasSecret(Text(e, data[pos..ChunkEnd(|data|, pos)]))
     || (pos + CHUNK < |data| && HitFrom(data, e, hasSecret, NextChunk(pos))))
  }

  datatype Verdict = Secret | Clean | Binary

  ghost function VerdictOf(data: seq<Byte>, hasSecret: seq<int> -> bool): Verdict {
    if data == [] then Clean
    else if ReadAs(data).None? then Binary
    else if HitFrom(data, ReadAs(data).value, hasSecret, 0) then Secret else Clean
  }

  /** One chunk, by as many reads as the system takes; each gives at least a byte. */
  method ReadChunk(data: seq<Byte>, pos: nat, want: nat, got: (nat, nat) -> nat) returns (chunk: seq<Byte>)
    requires pos + want <= |data| && forall at, w | w > 0 :: 1 <= got(at, w) <= w
    ensures chunk == data[pos..pos + want]
  {
    chunk := [];
    while |chunk| < want
      invariant |chunk| <= want && chunk == data[pos..pos + |chunk|]
      decreases want - |chunk|
    {
      var n := |chunk|;
      var k := got(pos + n, want - n);
      chunk := chunk + data[pos + n..pos + n + k];
    }
  }

  /** scanFile, of a file that does not shrink while it is read. */
  method ScanFile(data: seq<Byte>, hasSecret: seq<int> -> bool, got: (nat, nat) -> nat) returns (verdict: Verdict)
    requires forall at, w | w > 0 :: 1 <= got(at, w) <= w
    ensures verdict == VerdictOf(data, hasSecret)
  {
    var encoding, pos := Latin1, 0;
    while pos < |data|
      invariant pos <= |data| && pos % 2 == 0
      invariant if pos == 0 then encoding == Latin1 else ReadAs(data) == Some(encoding)
      invariant pos > 0 ==>
        VerdictOf(data, hasSecret) == if HitFrom(data, encoding, hasSecret, pos) then Secret else Clean
      decreases |data| - pos
    {
      var want := if CHUNK < |data| - pos then CHUNK else |data| - pos;
      var chunk := ReadChunk(data, pos, want, got);
      var n := |chunk|;
      if pos == 0 {
        var head := chunk[..if n < SNIFF then n else SNIFF];
        assert head == data[..if |data| < SNIFF then |data| else SNIFF];
        var wide := Utf16Of(head);
        if wide.Some? {
          encoding := wide.value;
        } else if 0 in head {
          return Binary;
        }
      }
      assert chunk == data[pos..ChunkEnd(|data|, pos)];
      if hasSecret(Text(encoding, chunk)) { return Secret; }
      if pos + n >= |data| { break; }
      var step := if n - OVERLAP > 2 then n - OVERLAP else 2;
      pos := pos + step - step % 2;
    }
    return Clean;
  }

  // ---- No token falls between two chunks ----

  /** Some stretch of the text is a token. */
  ghost predicate Contains(token: seq<int> -> bool, text: seq<int>) {
    exists i, j | 0 <= i < j <= |text| :: token(text[i..j])
  }

  lemma StretchOfStretch(text: seq<int>, from: nat, to: nat, i: nat, j: nat)
    requires from <= to <= |text| && i <= j <= to - from
    ensures text[from..to][i..j] == text[from + i..from + j]
  {
    var a, b := text[from..to][i..j], text[from + i..from + j];
    assert |a| == |b| && forall k | 0 <= k < |a| :: a[k] == b[k];
  }

  /** What one chunk's text is of the whole text. */
  lemma ChunkText(data: seq<Byte>, e: Encoding, pos: nat)
    requires pos <= |data| && pos % 2 == 0
    ensures var w, end := Width(e), ChunkEnd(|data|, pos);
      pos / w <= end / w <= |Text(e, data)| && Text(e, data[pos..end]) == Text(e, data)[pos / w..end / w]
  {
    var end := ChunkEnd(|data|, pos);
    TextOfStretch(e, data, pos, end - pos);
    assert |data[pos..end]| == end - pos;
    assert (end - pos) / Width(e) == end / Width(e) - pos / Width(e);
  }

  /** A token no longer than the overlap, from `pos` on, lies whole in some chunk from `pos` on. */
  lemma {:induction false} TokenIsHit(
    data: seq<Byte>, e: Encoding, hasSecret: seq<int> -> bool, token: seq<int> -> bool, pos: nat, a: nat, b: nat)
    requires forall text | Contains(token, text) :: hasSecret(text)
    requires pos < |data| && pos % 2 == 0 && pos / Width(e) <= a < b <= |Text(e, data)|
    requires (b - a) * Width(e) <= OVERLAP && token(Text(e, data)[a..b])
    ensures HitFrom(data, e, hasSecret, pos)
    decreases |data| - pos
  {
    var w, end := Width(e), ChunkEnd(|data|, pos);
    ChunkText(data, e, pos);
    if b <= end / w {
      var part := Text(e, data[pos..end]);
      StretchOfStretch(Text(e, data), pos / w, end / w, a - pos / w, b - pos / w);
      assert token(part[a - pos / w..b - pos / w]);
      assert Contains(token, part);
    } else {
      TokenIsHit(data, e, hasSecret, token, NextChunk(pos), a, b);
    }
  }

  lemma {:induction false} HitIsToken(
    data: seq<Byte>, e: Encoding, hasSecret: seq<int> -> bool, token: seq<int> -> bool, pos: nat)
    requires forall text | hasSecret(text) :: Contains(token, text)
    requires pos <= |data| && pos % 2 == 0 && HitFrom(data, e, hasSecret, pos)
    ensures Contains(token, Text(e, data))
    decreases |data| - pos
  {
    var w, end := Width(e), ChunkEnd(|data|, pos);
    var part := Text(e, data[pos..end]);
    ChunkText(data, e, pos);
    if hasSecret(part) {
      var i, j :| 0 <= i < j <= |part| && token(part[i..j]);
      StretchOfStretch(Text(e, data), pos / w, end / w, i, j);
      assert token(Text(e, data)[pos / w + i..pos / w + j]);
    } else {
      HitIsToken(data, e, hasSecret, token, NextChunk(pos));
    }
  }

  /** No secret is missed for lying on a seam, when what gives it away fits in the overlap. */
  lemma NothingMissedOnSeam(data: seq<Byte>, hasSecret: seq<int> -> bool, token: seq<int> -> bool, a: nat, b: nat)
    requires forall text | Contains(token, text) :: hasSecret(text)
    requires ReadAs(data).Some?
    requires var e := ReadAs(data).value; a < b <= |Text(e, data)| && (b - a) * Width(e) <= 4_096 && token(Text(e, data)[a..b])
    ensures VerdictOf(data, hasSecret) == Secret
  {
    TokenIsHit(data, ReadAs(data).value, hasSecret, token, 0, a, b);
  }

  /** Searching for short tokens chunk by chunk is searching the whole text. */
  lemma ChunksAreWholeSearch(data: seq<Byte>, hasSecret: seq<int> -> bool, token: seq<int> -> bool)
    requires forall text :: hasSecret(text) <==> Contains(token, text)
    requires forall t | token(t) :: |t| * 2 <= 4_096
    requires ReadAs(data).Some?
    ensures VerdictOf(data, hasSecret) == Secret <==> hasSecret(Text(ReadAs(data).value, data))
  {
    var e := ReadAs(data).value;
    var text := Text(e, data);
    if hasSecret(text) {
      var a, b :| 0 <= a < b <= |text| && token(text[a..b]);
      TokenIsHit(data, e, hasSecret, token, 0, a, b);
    }
    if VerdictOf(data, hasSecret) == Secret { HitIsToken(data, e, hasSecret, token, 0); }
  }

  // ---- Patterns that look at the units beside a token ----

  /**
   * A pattern as a test of a stretch of text and of the units before and behind it, of which the text may have
   * none: a word boundary and a look-ahead by one unit are such tests.
   */
  type Pattern = (Option<int>, seq<int>, Option<int>) -> bool

  function UnitBefore(text: seq<int>, i: nat): Option<int>
    requires i <= |text|
  {
    if i == 0 then None else Some(text[i - 1])
  }

  function UnitBehind(text: seq<int>, j: nat): Option<int>
    requires j <= |text|
  {
    if j == |text| then None else Some(text[j])
  }

  ghost predicate MatchAt(p: Pattern, text: seq<int>, i: nat, j: nat) {
    i < j <= |text| && p(UnitBefore(text, i), text[i..j], UnitBehind(text, j))
  }

  ghost predicate Found(p: Pattern, text: seq<int>) {
    exists i: nat, j: nat :: MatchAt(p, text, i, j)
  }

  const STEP: nat := CHUNK - OVERLAP

  /** The file has a chunk of this number. */
  ghost predicate IsChunk(size: nat, k: nat) { if k == 0 then size > 0 else k * STEP + OVERLAP < size }

  /** The bytes of a chunk, and its text. */
  ghost function Part(e: Encoding, data: seq<Byte>, k: nat): seq<int>
    requires IsChunk(|data|, k)
  {
    Text(e, data[k * STEP..ChunkEnd(|data|, k * STEP)])
  }

  /** Where a chunk's text begins and ends in the whole text. */
  ghost function Lo(e: Encoding, k: nat): nat { k * STEP / Width(e) }

  ghost function Hi(e: Encoding, data: seq<Byte>, k: nat): nat
    requires IsChunk(|data|, k)
  {
    ChunkEnd(|data|, k * STEP) / Width(e)
  }

  lemma PartOfText(e: Encoding, data: seq<Byte>, k: nat)
    requires IsChunk(|data|, k)
    ensures Lo(e, k) <= Hi(e, data, k) <= |Text(e, data)|
    ensures Part(e, data, k) == Text(e, data)[Lo(e, k)..Hi(e, data, k)]
  {
    ChunkText(data, e, k * STEP);
  }

  /** The scan hits when some chunk from the `k`-th on does. */
  lemma {:induction false} HitIsInChunk(data: seq<Byte>, e: Encoding, hasSecret: seq<int> -> bool, k: nat)
    requires IsChunk(|data|, k)
    ensures HitFrom(data, e, hasSecret, k * STEP) <==>
      exists m: nat :: k <= m && IsChunk(|data|, m) && hasSecret(Part(e, data, m))
    decreases |data| - k * STEP
  {
    if k * STEP + CHUNK < |data| {
      HitIsInChunk(data, e, hasSecret, k + 1);
      assert NextChunk(k * STEP) == (k + 1) * STEP;
    } else {
      forall m: nat | k < m ensures !IsChunk(|data|, m) { NoLaterChunk(|data|, k, m); }
    }
  }

  lemma NoLaterChunk(size: nat, k: nat, m: nat)
    requires k < m && k * STEP + CHUNK >= size
    ensures !IsChunk(size, m)
  {
    assert m * STEP >= (k + 1) * STEP;
  }

  /** A match that begins or ends where its chunk does, though the text goes on. */
  ghost predicate Cut(e: Encoding, data: seq<Byte>, k: nat, i: nat, j: nat)
    requires IsChunk(|data|, k)
  {
    (i == 0 && Lo(e, k) > 0) || (j == |Part(e, data, k)| && Hi(e, data, k) < |Text(e, data)|)
  }

  /** Some chunk's text has a match at an edge that is no edge of the file. */
  ghost predicate CutMatch(e: Encoding, data: seq<Byte>, p: Pattern) {
    exists k: nat, i: nat, j: nat :: IsChunk(|data|, k) && MatchAt(p, Part(e, data, k), i, j) && Cut(e, data, k, i, j)
  }

  /** A stretch of the text lies in one chunk, with the units beside it. */
  ghost predicate HeldBy(e: Encoding, data: seq<Byte>, k: nat, a: nat, b: nat) {
    && IsChunk(|data|, k) && Lo(e, k) <= a && b <= Hi(e, data, k)
    && (a == Lo(e, k) ==> a == 0) && (b == Hi(e, data, k) ==> b == |Text(e, data)|)
  }

  /** Some match of the whole text lies in one chunk, with the units beside it. */
  ghost predicate HeldMatch(e: Encoding, data: seq<Byte>, p: Pattern) {
    exists k: nat, a: nat, b: nat :: MatchAt(p, Text(e, data), a, b) && HeldBy(e, data, k, a, b)
  }

  lemma SameMatch(p: Pattern, text: seq<int>, from: nat, end: nat, i: nat, j: nat)
    requires from <= end <= |text| && i < j <= end - from
    requires (i == 0 ==> from == 0) && (j == end - from ==> end == |text|)
    ensures MatchAt(p, text[from..end], i, j) <==> MatchAt(p, text, from + i, from + j)
  {
    StretchOfStretch(text, from, end, i, j);
  }

  /** A match in a chunk is a match in the whole text, unless it is cut. */
  lemma UncutIsHeld(e: Encoding, data: seq<Byte>, p: Pattern, k: nat, i: nat, j: nat)
    requires IsChunk(|data|, k) && MatchAt(p, Part(e, data, k), i, j) && !Cut(e, data, k, i, j)
    ensures MatchAt(p, Text(e, data), Lo(e, k) + i, Lo(e, k) + j) && HeldBy(e, data, k, Lo(e, k) + i, Lo(e, k) + j)
  {
    PartOfText(e, data, k);
    SameMatch(p, Text(e, data), Lo(e, k), Hi(e, data, k), i, j);
  }

  lemma HeldIsUncut(e: Encoding, data: seq<Byte>, p: Pattern, k: nat, a: nat, b: nat)
    requires MatchAt(p, Text(e, data), a, b) && HeldBy(e, data, k, a, b)
    ensures MatchAt(p, Part(e, data, k), a - Lo(e, k), b - Lo(e, k))
  {
    PartOfText(e, data, k);
    SameMatch(p, Text(e, data), Lo(e, k), Hi(e, data, k), a - Lo(e, k), b - Lo(e, k));
  }

  /** The verdict, whatever the pattern: some match of the text lies in one chunk, or some chunk has a cut match. */
  lemma VerdictIsExact(data: seq<Byte>, hasSecret: seq<int> -> bool, p: Pattern)
    requires forall text :: hasSecret(text) <==> Found(p, text)
    requires ReadAs(data).Some? && data != []
    ensures var e := ReadAs(data).value;
      VerdictOf(data, hasSecret) == Secret <==> HeldMatch(e, data, p) || CutMatch(e, data, p)
  {
    var e := ReadAs(data).value;
    HitIsInChunk(data, e, hasSecret, 0);
    if VerdictOf(data, hasSecret) == Secret {
      var k: nat :| IsChunk(|data|, k) && hasSecret(Part(e, data, k));
      var i: nat, j: nat :| MatchAt(p, Part(e, data, k), i, j);
      if !Cut(e, data, k, i, j) { UncutIsHeld(e, data, p, k, i, j); }
    }
    if HeldMatch(e, data, p) {
      var k: nat, a: nat, b: nat :| MatchAt(p, Text(e, data), a, b) && HeldBy(e, data, k, a, b);
      HeldIsUncut(e, data, p, k, a, b);
      assert hasSecret(Part(e, data, k));
    }
    if CutMatch(e, data, p) {
      var k: nat, i: nat, j: nat :| IsChunk(|data|, k) && MatchAt(p, Part(e, data, k), i, j) && Cut(e, data, k, i, j);
      assert hasSecret(Part(e, data, k));
    }
  }

  /** A file whose text has no match is taken for one with a secret exactly when some chunk's match is cut; all are. */
  lemma FalseAlarmsAreCut(data: seq<Byte>, hasSecret: seq<int> -> bool, p: Pattern)
    requires forall text :: hasSecret(text) <==> Found(p, text)
    requires ReadAs(data).Some? && data != [] && !hasSecret(Text(ReadAs(data).value, data))
    ensures var e := ReadAs(data).value;
      && (VerdictOf(data, hasSecret) == Secret <==> CutMatch(e, data, p))
      && forall k: nat, i: nat, j: nat | IsChunk(|data|, k) && MatchAt(p, Part(e, data, k), i, j) :: Cut(e, data, k, i, j)
  {
    var e := ReadAs(data).value;
    VerdictIsExact(data, hasSecret, p);
    forall k: nat, i: nat, j: nat | IsChunk(|data|, k) && MatchAt(p, Part(e, data, k), i, j) ensures Cut(e, data, k, i, j) {
      if !Cut(e, data, k, i, j) { UncutIsHeld(e, data, p, k, i, j); }
    }
  }

  /** The stretch with the units beside it, as far as the text has them, fits in the overlap. */
  ghost predicate Fits(e: Encoding, data: seq<Byte>, a: nat, b: nat) {
    var n := |Text(e, data)|;
    a < b <= n && ((if b < n then b + 1 else b) - (if a > 0 then a - 1 else a)) * Width(e) <= 4_096
  }

  lemma {:induction false} FitIsHeld(e: Encoding, data: seq<Byte>, k: nat, a: nat, b: nat) returns (m: nat)
    requires IsChunk(|data|, k) && Fits(e, data, a, b) && (Lo(e, k) < a || Lo(e, k) == 0)
    ensures HeldBy(e, data, m, a, b)
    decreases |data| - k * STEP
  {
    if b < Hi(e, data, k) || Hi(e, data, k) == |Text(e, data)| {
      m := k;
    } else {
      assert (k + 1) * STEP == k * STEP + STEP;
      m := FitIsHeld(e, data, k + 1, a, b);
    }
  }

  /** Nothing is missed that fits in the overlap with the units beside it: the file counts as holding a secret. */
  lemma NothingMissedWithNeighbours(data: seq<Byte>, hasSecret: seq<int> -> bool, p: Pattern, a: nat, b: nat)
    requires forall text | Found(p, text) :: hasSecret(text)
    requires ReadAs(data).Some?
    requires var e := ReadAs(data).value; MatchAt(p, Text(e, data), a, b) && Fits(e, data, a, b)
    ensures VerdictOf(data, hasSecret) == Secret
  {
    var e := ReadAs(data).value;
    var k := FitIsHeld(e, data, 0, a, b);
    HeldIsUncut(e, data, p, k, a, b);
    HitIsInChunk(data, e, hasSecret, 0);
    assert hasSecret(Part(e, data, k));
  }

  /**
   * When a match of the text, if there is one, fits, scanning is searching the whole text exactly when the text
   * has a match or no chunk's match is cut.
   */
  lemma ChunksSearchWhole(data: seq<Byte>, hasSecret: seq<int> -> bool, p: Pattern)
    requires forall text :: hasSecret(text) <==> Found(p, text)
    requires ReadAs(data).Some? && data != []
    requires var e := ReadAs(data).value;
      hasSecret(Text(e, data)) ==> exists a: nat, b: nat :: MatchAt(p, Text(e, data), a, b) && Fits(e, data, a, b)
    ensures var e := ReadAs(data).value;
      (VerdictOf(data, hasSecret) == Secret <==> hasSecret(Text(e, data))) <==>
      hasSecret(Text(e, data)) || !CutMatch(e, data, p)
  {
    var e := ReadAs(data).value;
    if hasSecret(Text(e, data)) {
      var a: nat, b: nat :| MatchAt(p, Text(e, data), a, b) && Fits(e, data, a, b);
      NothingMissedWithNeighbours(data, hasSecret, p, a, b);
    } else {
      FalseAlarmsAreCut(data, hasSecret, p);
    }
  }

  /** A word character of the patterns. */
  predicate Word(u: int) { 48 <= u <= 57 || 65 <= u <= 90 || 97 <= u <= 122 || u == 95 }

  /** The Slack token of the patterns: a word boundary, `xox`, one of five letters, a dash and ten units or more. */
  predicate SlackToken(before: Option<int>, t: seq<int>, behind: Option<int>) {
    && (before.None? || !Word(before.value))
    && |t| >= 15 && t[0] == 120 && t[1] == 111 && t[2] == 120 && t[3] in {97, 98, 112, 114, 115} && t[4] == 45
    && forall k | 5 <= k < |t| :: (Word(t[k]) && t[k] != 95) || t[k] == 45
  }

  /** A file one byte longer than a chunk: `xoxb-` inside a word that begins with the file, where the second chunk begins. */
  function EdgeFile(): (data: seq<Byte>)
    ensures |data| == CHUNK + 1
    ensures forall i | 0 <= i < |data| && !(STEP <= i < STEP + 5) :: data[i] == 97
    ensures data[STEP] == 120 && data[STEP + 1] == 111 && data[STEP + 2] == 120
    ensures data[STEP + 3] == 98 && data[STEP + 4] == 45
  {
    seq(CHUNK + 1, i =>
      if i == STEP || i == STEP + 2 then 120 else if i == STEP + 1 then 111
      else if i == STEP + 3 then 98 else if i == STEP + 4 then 45 else 97)
  }

  lemma {:induction false} NoZeros(head: seq<Byte>, from: nat, pairs: nat)
    requires from <= 1 && 2 * pairs <= |head| && 0 !in head
    ensures Zeros(head, from, pairs) == 0
  {
    if pairs > 0 { NoZeros(head, from, pairs - 1); }
  }

  /** The false alarm at an input: the whole file has no Slack token, and its second chunk begins with one. */
  lemma SlackAtEdge(hasSecret: seq<int> -> bool)
    requires forall text :: hasSecret(text) <==> Found(SlackToken, text)
    ensures ReadAs(EdgeFile()) == Some(Latin1) && !hasSecret(Text(Latin1, EdgeFile()))
    ensures VerdictOf(EdgeFile(), hasSecret) == Secret
  {
    var data := EdgeFile();
    var text := Text(Latin1, data);
    EdgeFileReads();
    assert !Found(SlackToken, text) by {
      forall i: nat, j: nat ensures !MatchAt(SlackToken, text, i, j) { NoSlackToken(i, j); }
    }
    EdgeChunkMatches();
    FalseAlarmsAreCut(data, hasSecret, SlackToken);
  }

  lemma NoSlackToken(i: nat, j: nat)
    ensures !MatchAt(SlackToken, Text(Latin1, EdgeFile()), i, j)
  {
    var text := Text(Latin1, EdgeFile());
    if i + 15 <= j <= |text| { assert text[i..j][0] == text[i] && text[i..j][1] == text[i + 1]; }
  }

  lemma EdgeFileReads()
    ensures ReadAs(EdgeFile()) == Some(Latin1)
  {
    var head := EdgeFile()[..SNIFF];
    NoZeros(head, 0, SNIFF / 2);
    NoZeros(head, 1, SNIFF / 2);
  }

  lemma EdgeChunkMatches()
    ensures CutMatch(Latin1, EdgeFile(), SlackToken)
  {
    var data := EdgeFile();
    PartOfText(Latin1, data, 1);
    var part := Part(Latin1, data, 1);
    assert |part| == OVERLAP + 1;
    assert forall k | 0 <= k < |part| :: part[k] == data[STEP + k] as int;
    assert MatchAt(SlackToken, part, 0, 15);
    assert Cut(Latin1, data, 1, 0, 15);
  }

  // ---- What is read as text, and what as binary ----

  ghost predicate Units(text: seq<int>) { forall u | u in text :: 0 <= u < 65_536 }

  /** Code units as bytes, the low byte first or last. */
  function Encode(text: seq<int>, little: bool): (data: seq<Byte>)
    requires Units(text)
    ensures |data| == 2 * |text|
  {
    if text == [] then []
    else
      var n := |text| - 1;
      assert text[n] in text && forall u | u in text[..n] :: u in text;
      var low: Byte, high: Byte := text[n] % 256, text[n] / 256;
      Encode(text[..n], little) + if little then [low, high] else [high, low]
  }

  /** The bytes of the i-th unit. */
  lemma {:induction false} EncodedAt(text: seq<int>, little: bool, i: nat)
    requires Units(text) && i < |text|
    ensures var data, low, high := Encode(text, little), text[i] % 256, text[i] / 256;
      data[2 * i] as int == (if little then low else high) && data[2 * i + 1] as int == if little then high else low
  {
    var n := |text| - 1;
    assert forall u | u in text[..n] :: u in text;
    if i < n { EncodedAt(text[..n], little, i); }
  }

  function Wide(little: bool): Encoding { if little then LittleEndian else BigEndian }

  const MARK := 0xFEFF

  ghost predicate Ascii(text: seq<int>) { Units(text) && forall u | u in text :: 1 <= u <= 127 }

  /** What is written reads back, whatever its units. */
  lemma EncodedReads(text: seq<int>, little: bool)
    requires Units(text)
    ensures Text(Wide(little), Encode(text, little)) == text
  {
    var data := Encode(text, little);
    forall i: nat | i < |text| ensures Unit(Wide(little), data, i) == text[i] { EncodedAt(text, little, i); }
  }

  /** A byte order mark says how to read what follows. */
  lemma MarkedReads(text: seq<int>, little: bool)
    requires Units(text)
    ensures ReadAs(Encode([MARK] + text, little)) == Some(Wide(little))
  {
    EncodedAt([MARK] + text, little, 0);
  }

  lemma EncodedPair(text: seq<int>, little: bool, i: nat)
    requires Ascii(text) && i < |text|
    ensures var data := Encode(text, little);
      && data[2 * i] != 254 && data[2 * i] != 255
      && (data[2 * i] == 0 <==> !little) && (data[2 * i + 1] == 0 <==> little)
  {
    assert text[i] in text;
    EncodedAt(text, little, i);
  }

  lemma {:induction false} ZerosOfEncoded(text: seq<int>, little: bool, head: seq<Byte>, pairs: nat)
    requires Ascii(text) && 2 * pairs <= |head| && head <= Encode(text, little)
    ensures Zeros(head, 1, pairs) == if little then pairs else 0
    ensures Zeros(head, 0, pairs) == if little then 0 else pairs
  {
    if pairs > 0 {
      var i := pairs - 1;
      ZerosOfEncoded(text, little, head, i);
      EncodedPair(text, little, i);
      assert head[2 * i] == Encode(text, little)[2 * i] && head[2 * i + 1] == Encode(text, little)[2 * i + 1];
    }
  }

  /** Without a mark, plain text of eight units or more shows how to read it. */
  lemma UnmarkedReads(text: seq<int>, little: bool)
    requires Ascii(text) && |text| >= 8
    ensures ReadAs(Encode(text, little)) == Some(Wide(little))
  {
    var data := Encode(text, little);
    var head := data[..if |data| < SNIFF then |data| else SNIFF];
    EncodedPair(text, little, 0);
    assert head[0] == data[2 * 0];
    ZerosOfEncoded(text, little, head, |head| / 2);
  }

  /** The pairs of a head with a zero at their first (0) or second (1) byte. */
  ghost function ZeroPairs(head: seq<Byte>, from: nat): set<nat>
    requires from <= 1
  {
    set i: nat | i < |head| / 2 && head[2 * i + from] == 0
  }

  lemma {:induction false} ZerosCount(head: seq<Byte>, from: nat, pairs: nat)
    requires from <= 1 && 2 * pairs <= |head|
    ensures Zeros(head, from, pairs) == |set i: nat | i < pairs && head[2 * i + from] == 0|
  {
    var all := set i: nat | i < pairs && head[2 * i + from] == 0;
    if pairs == 0 {
      assert all == {};
    } else {
      ZerosCount(head, from, pairs - 1);
      var init := set i: nat | i < pairs - 1 && head[2 * i + from] == 0;
      assert all == if head[2 * (pairs - 1) + from] == 0 then init + {pairs - 1} else init;
    }
  }

  /** At least nine tenths of the pairs of a head have a zero at one byte, and at most a tenth at the other. */
  ghost predicate MostlyZeroAt(head: seq<Byte>, from: nat)
    requires from <= 1
  {
    |head| >= 16 && 10 * |ZeroPairs(head, from)| >= 9 * (|head| / 2) && 10 * |ZeroPairs(head, 1 - from)| <= |head| / 2
  }

  /** How the first 8,192 bytes decide: a mark, zeros at nearly every other byte, no zero at all, or binary. */
  lemma ReadAsDecides(data: seq<Byte>)
    ensures var head := data[..if |data| < 8_192 then |data| else 8_192];
      var little, big := [255, 254] <= head, [254, 255] <= head;
      && (ReadAs(data) == Some(LittleEndian) <==> little || (!big && MostlyZeroAt(head, 1)))
      && (ReadAs(data) == Some(BigEndian) <==> big || (!little && !MostlyZeroAt(head, 1) && MostlyZeroAt(head, 0)))
      && (ReadAs(data) == Some(Latin1) <==>
            0 !in head && !little && !big && !MostlyZeroAt(head, 1) && !MostlyZeroAt(head, 0))
      && (ReadAs(data) == None <==> 0 in head && !little && !big && !MostlyZeroAt(head, 1) && !MostlyZeroAt(head, 0))
  {
    var head := data[..if |data| < 8_192 then |data| else 8_192];
    ZerosCount(head, 0, |head| / 2);
    ZerosCount(head, 1, |head| / 2);
  }

  /** A head without a zero or a mark is read a byte at a time. */
  lemma NoZerosIsLatin(data: seq<Byte>)
    requires var head := data[..if |data| < 8_192 then |data| else 8_192];
      0 !in head && !([255, 254] <= head) && !([254, 255] <= head)
    ensures ReadAs(data) == Some(Latin1)
  {
    var head := data[..if |data| < 8_192 then |data| else 8_192];
    NoZeros(head, 0, |head| / 2);
    NoZeros(head, 1, |head| / 2);
  }

  /** An AWS access key id, between word boundaries. */
  predicate AwsKeyId(before: Option<int>, t: seq<int>, behind: Option<int>) {
    && (before.None? || !Word(before.value)) && (behind.None? || !Word(behind.value))
    && |t| == 20 && t[0] == 65 && t[3] == 65 && ((t[1] == 75 && t[2] == 73) || (t[1] == 83 && t[2] == 73))
    && forall k | 4 <= k < 20 :: 48 <= t[k] <= 57 || 65 <= t[k] <= 90
  }

  /** A key id in a UTF-16 file is found, in either byte order, behind a mark or in plain text without one. */
  lemma WideSecretIsFound(text: seq<int>, little: bool, marked: bool, hasSecret: seq<int> -> bool, a: nat, b: nat)
    requires forall t | Found(AwsKeyId, t) :: hasSecret(t)
    requires if marked then Units(text) else Ascii(text)
    requires MatchAt(AwsKeyId, text, a, b)
    ensures VerdictOf(Encode(if marked then [MARK] + text else text, little), hasSecret) == Secret
  {
    if marked {
      MarkedReads(text, little);
      KeyIdBehindMark(text, a, b);
      KeyIdIsFound([MARK] + text, little, hasSecret, a + 1, b + 1);
    } else {
      UnmarkedReads(text, little);
      KeyIdIsFound(text, little, hasSecret, a, b);
    }
  }

  lemma KeyIdBehindMark(text: seq<int>, a: nat, b: nat)
    requires MatchAt(AwsKeyId, text, a, b)
    ensures MatchAt(AwsKeyId, [MARK] + text, a + 1, b + 1)
  {
    assert ([MARK] + text)[a + 1..b + 1] == text[a..b];
  }

  lemma KeyIdIsFound(text: seq<int>, little: bool, hasSecret: seq<int> -> bool, a: nat, b: nat)
    requires forall t | Found(AwsKeyId, t) :: hasSecret(t)
    requires Units(text)
    requires MatchAt(AwsKeyId, text, a, b) && ReadAs(Encode(text, little)) == Some(Wide(little))
    ensures VerdictOf(Encode(text, little), hasSecret) == Secret
  {
    EncodedReads(text, little);
    assert b - a == |text[a..b]| == 20;
    NothingMissedWithNeighbours(Encode(text, little), hasSecret, AwsKeyId, a, b);
  }

  // ---- The cache of verdicts ----

  datatype Signature = Signature(size: nat, modified: int, inode: nat)

  datatype File = File(sig: Signature, data: seq<Byte>)

  type Folder = map<string, File>

  /** A file the agent's copy goes without: read, not vouched for, and holding a secret. */
  ghost predicate LeavesOut(
    disk: Folder, allowed: string -> bool, hasSecret: string -> seq<int> -> bool, path: string)
  {
    !allowed(path) && path in disk && VerdictOf(disk[path].data, hasSecret(path)) == Secret
  }

  /** The files left out, or the others, in the order given. */
  ghost function Split(
    files: seq<string>, disk: Folder, allowed: string -> bool, hasSecret: string -> seq<int> -> bool, left: bool)
    : seq<string>
  {
    if files == [] then []
    else
      var n := |files| - 1;
      Split(files[..n], disk, allowed, hasSecret, left)
        + if LeavesOut(disk, allowed, hasSecret, files[n]) == left then [files[n]] else []
  }

  /** Every file is in one of the two lists, as often as it was given. */
  lemma {:induction false} SplitPartitions(
    files: seq<string>, disk: Folder, allowed: string -> bool, hasSecret: string -> seq<int> -> bool)
    ensures multiset(Split(files, disk, allowed, hasSecret, false)) + multiset(Split(files, disk, allowed, hasSecret, true))
      == multiset(files)
    ensures forall f | f in Split(files, disk, allowed, hasSecret, true) :: LeavesOut(disk, allowed, hasSecret, f)
    ensures forall f | f in Split(files, disk, allowed, hasSecret, false) :: !LeavesOut(disk, allowed, hasSecret, f)
  {
    if files != [] {
      var n := |files| - 1;
      assert files == files[..n] + [files[n]];
      SplitPartitions(files[..n], disk, allowed, hasSecret);
    }
  }

  class Scanner {
    var verdicts: map<string, (Signature, Verdict)>

    constructor ()
      ensures verdicts == map[]
    {
      verdicts := map[];
    }

    /** Every verdict kept is the right one for its path and signature. */
    ghost predicate Trusted(truth: (string, Signature) -> Verdict)
      reads this
    {
      forall p | p in verdicts :: verdicts[p].1 == truth(p, verdicts[p].0)
    }

    /**
     * leaveOutSecrets. `truth` says what each path holds under each signature: while a signature determines
     * a file's content, whatever the folder was at earlier calls, the cache changes nothing.
     */
    method LeaveOutSecrets(
      disk: Folder, files: seq<string>, allowed: string -> bool, hasSecret: string -> seq<int> -> bool,
      got: (nat, nat) -> nat, ghost truth: (string, Signature) -> Verdict)
      returns (kept: seq<string>, leftOut: seq<string>)
      requires forall at, w | w > 0 :: 1 <= got(at, w) <= w
      requires forall p | p in disk :: VerdictOf(disk[p].data, hasSecret(p)) == truth(p, disk[p].sig)
      requires Trusted(truth)
      modifies this
      ensures Trusted(truth)
      ensures kept == Split(files, disk, allowed, hasSecret, false)
      ensures leftOut == Split(files, disk, allowed, hasSecret, true)
    {
      kept, leftOut := [], [];
      for i := 0 to |files|
        invariant Trusted(truth)
        invariant kept == Split(files[..i], disk, allowed, hasSecret, false)
        invariant leftOut == Split(files[..i], disk, allowed, hasSecret, true)
      {
        var path := files[i];
        assert files[..i + 1][..i] == files[..i];
        if allowed(path) || path !in disk {
          kept := kept + [path];
          continue;
        }
        var verdict := Binary;
        if path in verdicts && verdicts[path].0 == disk[path].sig {
          verdict := verdicts[path].1;
        } else {
          verdict := ScanFile(disk[path].data, hasSecret(path), got);
          verdicts := verdicts[path := (disk[path].sig, verdict)];
        }
        if verdict == Secret {
          leftOut := leftOut + [path];
        } else {
          kept := kept + [path];
        }
      }
      assert files[..|files|] == files;
    }
  }
}
