/** The on-disk entry of AssetCache.cpp: a header of named lines, a blank line, the raw payload. */
module EntryFormat {
  import opened Wrappers
  import opened Text

  const MAX_HEADER_BYTES: nat := 4096
  const FILE_MAGIC: Bytes := "ARKHAM-ASSET-CACHE 1"
  const TYPE_FIELD: Bytes := "content-type-base64:"
  const LENGTH_FIELD: Bytes := "byte-length:"
  const DIGEST_FIELD: Bytes := "payload-sha256:"
  const STORED_FIELD: Bytes := "stored-at-ms:"

  /** SHA-256 in lower-case hex. */
  type Digest = Bytes -> Bytes

  predicate IsLowerHex64(s: Bytes) {
    |s| == 64 && forall i | 0 <= i < |s| :: IsDigit(s[i]) || 'a' <= s[i] <= 'f'
  }

  ghost predicate IsDigest(sha: Digest) {
    forall b :: IsLowerHex64(sha(b))
  }

  /** Among these byte strings, distinct ones have distinct digests. */
  predicate CollisionFree(sha: Digest, apart: set<Bytes>) {
    forall a, b | a in apart && b in apart && sha(a) == sha(b) :: a == b
  }

  // ---- base64url without padding (section 5 of RFC 4648) ----

  function Sextet(n: nat): (c: char)
    requires n < 64
    ensures c != '\n'
  {
    if n < 26 then 'A' + n as char
    else if n < 52 then 'a' + (n - 26) as char
    else if n < 62 then '0' + (n - 52) as char
    else if n == 62 then '-' else '_'
  }

  function ByteValue(c: char): (b: nat)
    ensures b < 256
  {
    c as int % 256
  }

  function Base64Url(data: Bytes): (s: Bytes)
    ensures '\n' !in s
  {
    if data == [] then []
    else if |data| == 1 then
      var n := ByteValue(data[0]);
      [Sextet(n / 4), Sextet(n % 4 * 16)]
    else if |data| == 2 then
      var (n, m) := (ByteValue(data[0]), ByteValue(data[1]));
      [Sextet(n / 4), Sextet(n % 4 * 16 + m / 16), Sextet(m % 16 * 4)]
    else
      var (n, m, k) := (ByteValue(data[0]), ByteValue(data[1]), ByteValue(data[2]));
      [Sextet(n / 4), Sextet(n % 4 * 16 + m / 16), Sextet(m % 16 * 4 + k / 64), Sextet(k % 64)]
      + Base64Url(data[3..])
  }

  // ---- Writing ----

  /** buildHeader. `contentType` is in UTF-8. */
  function BuildHeader(payload: Bytes, digest: Bytes, contentType: Bytes, now: nat): Bytes {
    FILE_MAGIC + "\n"
    + TYPE_FIELD + Base64Url(contentType) + "\n"
    + LENGTH_FIELD + Decimal(|payload|) + "\n"
    + DIGEST_FIELD + digest + "\n"
    + STORED_FIELD + Decimal(now) + "\n\n"
  }

  function EntryFile(payload: Bytes, digest: Bytes, contentType: Bytes, now: nat): Bytes {
    BuildHeader(payload, digest, contentType, now) + payload
  }

  // ---- Reading ----

  /** fieldValue: what follows the prefix on the first line that has it. */
  function FieldValue(lines: seq<Bytes>, prefix: Bytes): Option<Bytes> {
    if lines == [] then None
    else if prefix <= lines[0] then Some(lines[0][|prefix|..])
    else FieldValue(lines[1..], prefix)
  }

  datatype ParsedHeader = ParsedHeader(payloadLength: nat, digest: Bytes)

  function ParseHeader(header: Bytes, maxPayloadSize: int): Option<ParsedHeader> {
    var lines := SplitLines(header);
    var length := FieldValue(lines, LENGTH_FIELD);
    var digest := FieldValue(lines, DIGEST_FIELD);
    var stored := FieldValue(lines, STORED_FIELD);
    if lines[0] != FILE_MAGIC || FieldValue(lines, TYPE_FIELD).None? then None
    else if length.None? || digest.None? || stored.None? then None
    else
      var payloadLength := ToLongLong(length.value);
      var storedAt := ToLongLong(stored.value);
      if payloadLength.None? || payloadLength.value < 0 || payloadLength.value > maxPayloadSize then None
      else if storedAt.None? || storedAt.value < 0 then None
      else if !IsLowerHex64(digest.value) then None
      else Some(ParsedHeader(payloadLength.value, digest.value))
  }

  /** What lookupDisk accepts as the payload of a file. */
  function ReadEntry(file: Bytes, maxEncodedBytes: int, sha: Digest): Option<Bytes> {
    if |file| == 0 || |file| > maxEncodedBytes + MAX_HEADER_BYTES then None
    else
      var separator := FindBlank(file);
      if separator < 0 || separator > MAX_HEADER_BYTES then None
      else
        var payload := file[separator + 2..];
        var parsed := ParseHeader(file[..separator], maxEncodedBytes);
        if parsed.None? || |payload| != parsed.value.payloadLength || sha(payload) != parsed.value.digest then None
        else Some(payload)
  }

  // ---- The round trip ----

  function HeaderLines(payload: Bytes, digest: Bytes, contentType: Bytes, now: nat): seq<Bytes> {
    [FILE_MAGIC,
     TYPE_FIELD + Base64Url(contentType),
     LENGTH_FIELD + Decimal(|payload|),
     DIGEST_FIELD + digest,
     STORED_FIELD + Decimal(now)]
  }

  lemma DigitsHaveNoNewline(s: Bytes)
    requires AllDigits(s)
    ensures '\n' !in s
  {
  }

  lemma FieldLine(field: Bytes, value: Bytes)
    requires field != [] && '\n' !in field && '\n' !in value
    ensures field + value != [] && '\n' !in field + value
  {
  }

  lemma HeaderIsLines(payload: Bytes, digest: Bytes, contentType: Bytes, now: nat)
    requires IsLowerHex64(digest)
    ensures AreLines(HeaderLines(payload, digest, contentType, now))
    ensures BuildHeader(payload, digest, contentType, now) ==
      JoinLines(HeaderLines(payload, digest, contentType, now)) + "\n\n"
  {
    var lines := HeaderLines(payload, digest, contentType, now);
    assert AreLines(lines) by {
      FieldLine(TYPE_FIELD, Base64Url(contentType));
      DigitsHaveNoNewline(Decimal(|payload|));
      FieldLine(LENGTH_FIELD, Decimal(|payload|));
      FieldLine(DIGEST_FIELD, digest);
      DigitsHaveNoNewline(Decimal(now));
      FieldLine(STORED_FIELD, Decimal(now));
    }
    JoinFive(lines[0], TYPE_FIELD, Base64Url(contentType), LENGTH_FIELD, Decimal(|payload|),
             DIGEST_FIELD, digest, STORED_FIELD, Decimal(now));
  }

  lemma JoinFive(l: Bytes, f1: Bytes, v1: Bytes, f2: Bytes, v2: Bytes, f3: Bytes, v3: Bytes, f4: Bytes, v4: Bytes)
    ensures l + "\n" + f1 + v1 + "\n" + f2 + v2 + "\n" + f3 + v3 + "\n" + f4 + v4 + "\n\n" ==
            JoinLines([l, f1 + v1, f2 + v2, f3 + v3, f4 + v4]) + "\n\n"
  {
    var lines := [l, f1 + v1, f2 + v2, f3 + v3, f4 + v4];
    JoinTwo(lines[3], lines[4], [lines[3], lines[4]]);
    JoinMore(lines[2], [lines[3], lines[4]], [lines[2], lines[3], lines[4]]);
    JoinMore(lines[1], [lines[2], lines[3], lines[4]], [lines[1], lines[2], lines[3], lines[4]]);
    JoinMore(lines[0], [lines[1], lines[2], lines[3], lines[4]], lines);
  }

  lemma JoinTwo(a: Bytes, b: Bytes, lines: seq<Bytes>)
    requires lines == [a, b]
    ensures JoinLines(lines) == a + "\n" + b
  {
    assert lines[1..] == [b];
  }

  lemma JoinMore(a: Bytes, rest: seq<Bytes>, lines: seq<Bytes>)
    requires |rest| > 0 && lines == [a] + rest
    ensures JoinLines(lines) == a + "\n" + JoinLines(rest)
  {
    assert lines[1..] == rest;
  }

  lemma FieldFound(prefix: Bytes, value: Bytes, rest: seq<Bytes>)
    ensures FieldValue([prefix + value] + rest, prefix) == Some(value)
  {
    assert (prefix + value)[|prefix|..] == value;
    assert ([prefix + value] + rest)[0] == prefix + value;
  }

  /** A line that starts with another letter is not the field's. */
  lemma FieldSkipped(prefix: Bytes, line: Bytes, rest: seq<Bytes>)
    requires prefix != [] && line != [] && prefix[0] != line[0]
    ensures FieldValue([line] + rest, prefix) == FieldValue(rest, prefix)
  {
    assert ([line] + rest)[1..] == rest;
  }

  lemma FieldsByInitial(l: Bytes, f1: Bytes, v1: Bytes, f2: Bytes, v2: Bytes, f3: Bytes, v3: Bytes, f4: Bytes,
                        v4: Bytes)
    requires l != [] && f1 != [] && f2 != [] && f3 != [] && f4 != []
    requires l[0] == 'A' && f1[0] == 'c' && f2[0] == 'b' && f3[0] == 'p' && f4[0] == 's'
    ensures var lines := [l, f1 + v1, f2 + v2, f3 + v3, f4 + v4];
            && FieldValue(lines, f1) == Some(v1) && FieldValue(lines, f2) == Some(v2)
            && FieldValue(lines, f3) == Some(v3) && FieldValue(lines, f4) == Some(v4)
  {
    var (l1, l2, l3, l4) := (f1 + v1, f2 + v2, f3 + v3, f4 + v4);
    assert [l, l1, l2, l3, l4] == [l] + [l1, l2, l3, l4];
    assert [l1, l2, l3, l4] == [l1] + [l2, l3, l4];
    assert [l2, l3, l4] == [l2] + [l3, l4];
    assert [l3, l4] == [l3] + [l4];
    assert [l4] == [l4] + [];
    FieldSkipped(f1, l, [l1, l2, l3, l4]);
    FieldFound(f1, v1, [l2, l3, l4]);
    FieldSkipped(f2, l, [l1, l2, l3, l4]);
    FieldSkipped(f2, l1, [l2, l3, l4]);
    FieldFound(f2, v2, [l3, l4]);
    FieldSkipped(f3, l, [l1, l2, l3, l4]);
    FieldSkipped(f3, l1, [l2, l3, l4]);
    FieldSkipped(f3, l2, [l3, l4]);
    FieldFound(f3, v3, [l4]);
    FieldSkipped(f4, l, [l1, l2, l3, l4]);
    FieldSkipped(f4, l1, [l2, l3, l4]);
    FieldSkipped(f4, l2, [l3, l4]);
    FieldSkipped(f4, l3, [l4]);
    FieldFound(f4, v4, []);
  }

  lemma HeaderParses(payload: Bytes, digest: Bytes, contentType: Bytes, now: nat, maxPayloadSize: int)
    requires IsLowerHex64(digest) && now <= MAX_INT64
    ensures ParseHeader(JoinLines(HeaderLines(payload, digest, contentType, now)), maxPayloadSize) ==
            if |payload| <= maxPayloadSize && |payload| <= MAX_INT64
            then Some(ParsedHeader(|payload|, digest)) else None
  {
    var lines := HeaderLines(payload, digest, contentType, now);
    HeaderIsLines(payload, digest, contentType, now);
    SplitOfJoin(lines);
    FieldsByInitial(FILE_MAGIC, TYPE_FIELD, Base64Url(contentType), LENGTH_FIELD, Decimal(|payload|),
                    DIGEST_FIELD, digest, STORED_FIELD, Decimal(now));
    DecimalParses(|payload|);
    DecimalParses(now);
  }

  /** An entry read back: the payload written is recovered exactly, whatever it contains (newlines at
      its start included), precisely when the header fits its limit and neither the payload nor the
      whole file exceeds the reader's; otherwise the reader refuses the file. */
  lemma EntryRoundTrip(payload: Bytes, contentType: Bytes, now: nat, maxEncodedBytes: int, sha: Digest)
    requires IsDigest(sha) && now <= MAX_INT64
    ensures var header := BuildHeader(payload, sha(payload), contentType, now);
            ReadEntry(header + payload, maxEncodedBytes, sha) ==
            if && |header| - 2 <= MAX_HEADER_BYTES
               && |payload| <= maxEncodedBytes && |payload| <= MAX_INT64
               && |header| + |payload| <= maxEncodedBytes + MAX_HEADER_BYTES
            then Some(payload) else None
  {
    var lines := HeaderLines(payload, sha(payload), contentType, now);
    HeaderIsLines(payload, sha(payload), contentType, now);
    var (head, file) := (JoinLines(lines), BuildHeader(payload, sha(payload), contentType, now) + payload);
    FindBlankAfterLines(lines, payload);
    assert file[..|head|] == head && file[|head| + 2..] == payload;
    HeaderParses(payload, sha(payload), contentType, now, maxEncodedBytes);
  }

  /** Whatever follows the header unchanged is either the payload it was written for or refused: no
      other bytes are ever read back under that header. */
  lemma TamperedEntryRefused(payload: Bytes, other: Bytes, contentType: Bytes, now: nat, maxEncodedBytes: int,
                             sha: Digest)
    requires IsDigest(sha) && CollisionFree(sha, {payload, other}) && now <= MAX_INT64
    requires other != payload
    ensures ReadEntry(BuildHeader(payload, sha(payload), contentType, now) + other, maxEncodedBytes, sha) == None
  {
    var lines := HeaderLines(payload, sha(payload), contentType, now);
    HeaderIsLines(payload, sha(payload), contentType, now);
    var (head, file) := (JoinLines(lines), BuildHeader(payload, sha(payload), contentType, now) + other);
    FindBlankAfterLines(lines, other);
    assert file[..|head|] == head && file[|head| + 2..] == other;
    HeaderParses(payload, sha(payload), contentType, now, maxEncodedBytes);
  }
}
