/**
 * The stash record of libra: SHA1::from_str (a 40-digit hexadecimal string, or the empty
 * string for the all-zero hash), and the one-line record "stash:index:message" that
 * save_stash_entry writes and get_stash reads back. The text parsed is ASCII, so its length
 * in characters is Rust's length in bytes and no slice can split a character.
 */
module Stash {
  import opened Base

  /** Every character is ASCII (one UTF-8 byte). */
  predicate IsAscii(s: string) {
    forall i :: 0 <= i < |s| ==> s[i] < 128 as char
  }

  lemma AsciiConcat(a: string, b: string)
    requires IsAscii(a) && IsAscii(b)
    ensures IsAscii(a + b)
  {
    forall i | 0 <= i < |a + b|
      ensures (a + b)[i] < 128 as char
    {
      if i >= |a| {
        assert (a + b)[i] == b[i - |a|];
      }
    }
  }

  /** A SHA-1 value: its 20 bytes. */
  type HashBytes = s: seq<byte> | |s| == 20 witness seq(20, i => 0)
  datatype Sha1 = Sha1(bytes: HashBytes)

  /** SHA1::default(): all 20 bytes zero. */
  function DefaultHash(): Sha1 {
    Sha1(seq(20, i => 0))
  }

  /**
   * SHA1::new, which makes the hash value from the 20 decoded bytes. Its definition is not
   * part of this model, so it is a parameter; Wraps says that it keeps the bytes as the value.
   */
  type Sha1New = HashBytes -> Sha1

  ghost predicate Wraps(sha1New: Sha1New) {
    forall b: HashBytes :: sha1New(b) == Sha1(b)
  }

  /** The value of a hexadecimal digit, as char::to_digit(16) gives it. */
  function HexValue(c: char): (r: Option<nat>)
    ensures r.Some? ==> r.value < 16
  {
    if '0' <= c <= '9' then Some(c as int - '0' as int)
    else if 'a' <= c <= 'f' then Some(c as int - 'a' as int + 10)
    else if 'A' <= c <= 'F' then Some(c as int - 'A' as int + 10)
    else None
  }

  /** The value of a string of hexadecimal digits, most significant first; None if one is not a digit. */
  function DigitsValue(ds: string): Option<nat>
  {
    if |ds| == 0 then Some(0)
    else
      match (DigitsValue(ds[..|ds| - 1]), HexValue(ds[|ds| - 1]))
      case (Some(hi), Some(lo)) => Some(hi * 16 + lo)
      case _ => None
  }

  /**
   * u8::from_str_radix(t, 16): an optional leading '+' (a '-' is not a digit of an unsigned
   * type), then at least one hexadecimal digit, and a value that fits in a byte.
   */
  function FromStrRadix16(t: string): Option<byte> {
    if |t| == 0 then None
    else if (t[0] == '+' || t[0] == '-') && |t| == 1 then None
    else
      var digits := if t[0] == '+' then t[1..] else t;
      match DigitsValue(digits)
      case None => None
      case Some(v) => if v < 256 then Some(v as byte) else None
  }

  /** Why from_str refused its input; each carries the input, as the Rust message does. */
  datatype ParseError = InvalidHash(s: string) | InvalidHexCharacter(s: string)

  /** The byte pairs of s decoded in order; the first pair that does not parse fails the whole. */
  function DecodePairs(s: string): (r: Option<seq<byte>>)
    requires |s| % 2 == 0
    ensures r.Some? ==> |r.value| == |s| / 2
    decreases |s|
  {
    if |s| == 0 then Some([])
    else
      match (FromStrRadix16(s[..2]), DecodePairs(s[2..]))
      case (Some(b), Some(rest)) => Some([b] + rest)
      case _ => None
  }

  /** SHA1::from_str. */
  function FromStr(s: string, sha1New: Sha1New): (r: Result<Sha1, ParseError>)
    requires IsAscii(s)
    ensures |s| != 40 && s != "" ==> r == Err(InvalidHash(s))
    ensures s == "" ==> r == Ok(DefaultHash())
  {
    if |s| != 40 && s != "" then Err(InvalidHash(s))
    else if s == "" then Ok(DefaultHash())
    else
      match DecodePairs(s)
      case None => Err(InvalidHexCharacter(s))
      case Some(bytes) => Ok(sha1New(bytes))
  }

  /** Pair k of s, the slice s[2k..2k+2]. */
  function Pair(s: string, k: nat): string
    requires 2 * k + 2 <= |s|
  {
    s[2 * k..2 * k + 2]
  }

  /** The pairs decode exactly when each one does, and byte k is the value of pair k. */
  lemma {:induction false} DecodePairsMeaning(s: string)
    requires |s| % 2 == 0
    ensures DecodePairs(s).Some? <==> forall k :: 0 <= k < |s| / 2 ==> FromStrRadix16(Pair(s, k)).Some?
    ensures DecodePairs(s).Some? ==>
      forall k :: 0 <= k < |s| / 2 ==> DecodePairs(s).value[k] == FromStrRadix16(Pair(s, k)).value
    decreases |s|
  {
    if |s| > 0 {
      DecodePairsMeaning(s[2..]);
      assert forall k :: 1 <= k < |s| / 2 ==> Pair(s, k) == Pair(s[2..], k - 1);
      assert Pair(s, 0) == s[..2];
      if FromStrRadix16(s[..2]).Some? && DecodePairs(s[2..]).Some? {
        assert forall k :: 0 <= k < |s| / 2 ==> FromStrRadix16(Pair(s, k)).Some? by {
          forall k | 0 <= k < |s| / 2
            ensures FromStrRadix16(Pair(s, k)).Some?
          {
            if k > 0 {
              assert FromStrRadix16(Pair(s[2..], k - 1)).Some?;
            }
          }
        }
      } else if FromStrRadix16(s[..2]).None? {
        assert FromStrRadix16(Pair(s, 0)).None?;
      } else {
        var k :| 0 <= k < |s[2..]| / 2 && FromStrRadix16(Pair(s[2..], k)).None?;
        assert FromStrRadix16(Pair(s, k + 1)).None?;
      }
    }
  }

  /**
   * A 40-character hash parses exactly when every pair of characters does, and byte k of the
   * result is the base-16 value of characters 2k and 2k+1.
   */
  lemma FromStrOfFortyCharacters(s: string, sha1New: Sha1New)
    requires |s| == 40 && IsAscii(s)
    ensures FromStr(s, sha1New).Ok? <==> forall k :: 0 <= k < 20 ==> FromStrRadix16(Pair(s, k)).Some?
    ensures FromStr(s, sha1New).Err? ==> FromStr(s, sha1New) == Err(InvalidHexCharacter(s))
    ensures FromStr(s, sha1New).Ok? ==>
      && DecodePairs(s).Some? && FromStr(s, sha1New) == Ok(sha1New(DecodePairs(s).value))
      && forall k :: 0 <= k < 20 ==> DecodePairs(s).value[k] == FromStrRadix16(Pair(s, k)).value
  {
    DecodePairsMeaning(s);
  }

  /** The pair "+f" decodes, one leading '+' being allowed; "-f" and "+" do not. */
  lemma SignedPairs()
    ensures FromStrRadix16("+f") == Some(15)
    ensures FromStrRadix16("-f") == None
    ensures FromStrRadix16("+") == None
  {
    assert "+f"[1..] == "f";
    assert DigitsValue("f") == Some(15) by {
      assert "f"[..0] == "";
    }
    assert DigitsValue("-f") == None by {
      assert "-f"[..1] == "-";
      assert "-"[..0] == "";
    }
  }

  /** The lower-case hexadecimal digit of a value below 16. */
  function HexDigit(v: nat): (r: char)
    requires v < 16
    ensures HexValue(r) == Some(v) && r < 128 as char
  {
    "0123456789abcdef"[v]
  }

  /** The two lower-case hexadecimal digits of a byte. */
  function ByteHex(b: byte): string {
    [HexDigit(b as nat / 16), HexDigit(b as nat % 16)]
  }

  /** The hexadecimal text of a byte sequence. */
  function Hex(bs: seq<byte>): (r: string)
    ensures |r| == 2 * |bs| && IsAscii(r)
  {
    if |bs| == 0 then ""
    else
      AsciiConcat(ByteHex(bs[0]), Hex(bs[1..]));
      ByteHex(bs[0]) + Hex(bs[1..])
  }

  /** SHA1's Display: forty lower-case hexadecimal digits. */
  function Display(h: Sha1): (r: string)
    ensures |r| == 40 && IsAscii(r)
  {
    Hex(h.bytes)
  }

  /** A byte's two digits parse back to the byte. */
  lemma ByteHexRoundTrip(b: byte)
    ensures FromStrRadix16(ByteHex(b)) == Some(b)
  {
    var s := ByteHex(b);
    var hi, lo := b as nat / 16, b as nat % 16;
    assert s[0] != '+' && s[0] != '-';
    assert s[..1] == [s[0]];
    assert [s[0]][..0] == "";
    assert DigitsValue(s[..1]) == Some(hi);
    assert DigitsValue(s) == Some(hi * 16 + lo);
  }

  /** Hex text decodes pair by pair back to the bytes. */
  lemma {:induction false} HexDecodes(bs: seq<byte>)
    ensures DecodePairs(Hex(bs)) == Some(bs)
  {
    if |bs| > 0 {
      var s := Hex(bs);
      assert s[..2] == ByteHex(bs[0]);
      assert s[2..] == Hex(bs[1..]);
      ByteHexRoundTrip(bs[0]);
      HexDecodes(bs[1..]);
      assert [bs[0]] + bs[1..] == bs;
    }
  }

  /** Parsing what Display writes gives SHA1::new of the hash's bytes, so the hash when new wraps. */
  lemma DisplayRoundTrip(h: Sha1, sha1New: Sha1New)
    ensures FromStr(Display(h), sha1New) == Ok(sha1New(h.bytes))
    ensures Wraps(sha1New) ==> FromStr(Display(h), sha1New) == Ok(h)
  {
    HexDecodes(h.bytes);
  }

  /** Every hash survives Display then from_str exactly when SHA1::new keeps the bytes. */
  lemma DisplayRoundTripIffWraps(sha1New: Sha1New)
    ensures Wraps(sha1New) <==> forall h: Sha1 :: FromStr(Display(h), sha1New) == Ok(h)
  {
    forall h: Sha1
      ensures FromStr(Display(h), sha1New) == Ok(sha1New(h.bytes))
    {
      DisplayRoundTrip(h, sha1New);
    }
    if forall h: Sha1 :: FromStr(Display(h), sha1New) == Ok(h) {
      forall b: HashBytes
        ensures sha1New(b) == Sha1(b)
      {
        assert FromStr(Display(Sha1(b)), sha1New) == Ok(Sha1(b));
      }
    }
  }

  /** Hex text holds only hexadecimal digits, so neither a separator nor a line end. */
  lemma {:induction false} HexHasNoSeparator(bs: seq<byte>)
    ensures forall i :: 0 <= i < |Hex(bs)| ==> HexValue(Hex(bs)[i]).Some?
    ensures ':' !in Hex(bs) && '\n' !in Hex(bs)
  {
    if |bs| > 0 {
      HexHasNoSeparator(bs[1..]);
      assert Hex(bs) == ByteHex(bs[0]) + Hex(bs[1..]);
    }
  }

  /** A stash entry: the stash commit, the index commit if any, and the message. */
  datatype StashEntry = StashEntry(stashCommit: Sha1, indexCommit: Option<Sha1>, message: string)

  /** str::split(':'): the text between separators, at least one (possibly empty) field. */
  function Split(s: string, sep: char): (r: seq<string>)
    ensures |r| >= 1
    ensures sep !in s ==> r == [s]
    ensures IsAscii(s) ==> forall i :: 0 <= i < |r| ==> IsAscii(r[i])
    decreases |s|
  {
    if |s| == 0 then [""]
    else
      var rest := Split(s[1..], sep);
      if s[0] == sep then [""] + rest
      else
        assert sep !in s ==> rest == [s[1..]] && [s[0]] + s[1..] == s;
        assert IsAscii(s) ==> IsAscii([s[0]] + rest[0]) by {
          if IsAscii(s) {
            assert IsAscii(s[1..]);
            AsciiConcat([s[0]], rest[0]);
          }
        }
        [[s[0]] + rest[0]] + rest[1..]
  }

  /** The first line of str::lines(): text before the first '\n', a '\r' before it dropped. */
  function FirstLine(content: string): (r: Option<string>)
    ensures r.None? <==> content == ""
    ensures IsAscii(content) && r.Some? ==> IsAscii(r.value)
  {
    if content == "" then None
    else
      var i := IndexOf(content, '\n');
      if i == |content| then Some(content)
      else if i > 0 && content[i - 1] == '\r' then Some(content[..i - 1])
      else Some(content[..i])
  }

  /** The position of the first c in s, or |s| when there is none. */
  function IndexOf(s: string, c: char): (i: nat)
    ensures i <= |s| && c !in s[..i]
    ensures i < |s| ==> s[i] == c
  {
    if |s| == 0 then 0
    else if s[0] == c then 0
    else
      var j := IndexOf(s[1..], c);
      assert s[..1 + j] == [s[0]] + s[1..][..j];
      1 + j
  }

  /** get_stash's parse of the stash file's content. */
  function ParseRecord(content: string, sha1New: Sha1New): Option<StashEntry>
    requires IsAscii(content)
  {
    match FirstLine(content)
    case None => None
    case Some(line) =>
      var parts := Split(line, ':');
      if |parts| < 2 then None
      else
        match FromStr(parts[0], sha1New)
        case Err(_) => None
        case Ok(stashCommit) =>
          if parts[1] == "" then Some(StashEntry(stashCommit, None, if |parts| > 2 then parts[2] else ""))
          else
            match FromStr(parts[1], sha1New)
            case Err(_) => None
            case Ok(indexCommit) =>
              Some(StashEntry(stashCommit, Some(indexCommit), if |parts| > 2 then parts[2] else ""))
  }

  /** save_stash_entry's line: stash ":" index ":" message, a missing index written as the default. */
  function FormatRecord(entry: StashEntry): (r: string)
    ensures IsAscii(entry.message) ==> IsAscii(r)
  {
    var s, x := Display(entry.stashCommit), Display(entry.indexCommit.GetOr(DefaultHash()));
    AsciiFields(s, x, entry.message);
    s + ":" + x + ":" + entry.message
  }

  lemma AsciiFields(s: string, x: string, m: string)
    requires IsAscii(s) && IsAscii(x)
    ensures IsAscii(m) ==> IsAscii(s + ":" + x + ":" + m)
  {
    AsciiConcat(s, ":");
    AsciiConcat(s + ":", x);
    AsciiConcat(s + ":" + x, ":");
    if IsAscii(m) {
      AsciiConcat(s + ":" + x + ":", m);
    }
  }

  /** Splitting a colon-free field followed by a colon and more text. */
  lemma SplitAfterField(a: string, b: string)
    requires ':' !in a
    ensures Split(a + ":" + b, ':') == [a] + Split(b, ':')
    decreases |a|
  {
    if |a| == 0 {
      assert (a + ":" + b)[1..] == b;
    } else {
      assert (a + ":" + b)[1..] == a[1..] + ":" + b;
      SplitAfterField(a[1..], b);
      assert [a[0]] + a[1..] == a;
    }
  }

  /** A line without '\n' is the whole content. */
  lemma FirstLineOfSingleLine(s: string)
    requires s != "" && '\n' !in s
    ensures FirstLine(s) == Some(s)
  {
  }

  /** The fields of a formatted line, split at ':'. */
  lemma SplitFormattedLine(s: string, x: string, msg: string)
    requires ':' !in s && ':' !in x
    ensures Split(s + ":" + x + ":" + msg, ':') == [s, x] + Split(msg, ':')
  {
    assert s + ":" + x + ":" + msg == s + ":" + (x + ":" + msg);
    SplitAfterField(s, x + ":" + msg);
    SplitAfterField(x, msg);
  }

  /** A one-line record whose first two fields are non-empty hashes. */
  lemma ParseTwoHashes(line: string, s: string, x: string, rest: seq<string>, sha1New: Sha1New)
    requires IsAscii(line) && line != "" && '\n' !in line
    requires Split(line, ':') == [s, x] + rest && x != ""
    requires IsAscii(s) && IsAscii(x) && FromStr(s, sha1New).Ok? && FromStr(x, sha1New).Ok?
    ensures ParseRecord(line, sha1New) ==
      Some(StashEntry(FromStr(s, sha1New).value, Some(FromStr(x, sha1New).value),
                      if |rest| > 0 then rest[0] else ""))
  {
    FirstLineOfSingleLine(line);
  }

  /** A formatted line reads back both hashes and the message up to its first ':'. */
  lemma ParseFormattedLine(stash: Sha1, index: Sha1, msg: string, sha1New: Sha1New)
    requires IsAscii(msg) && '\n' !in msg
    ensures ParseRecord(FormatRecord(StashEntry(stash, Some(index), msg)), sha1New) ==
      Some(StashEntry(sha1New(stash.bytes), Some(sha1New(index.bytes)), Split(msg, ':')[0]))
  {
    var s, x := Display(stash), Display(index);
    HexHasNoSeparator(stash.bytes);
    HexHasNoSeparator(index.bytes);
    var line := FormatRecord(StashEntry(stash, Some(index), msg));
    assert line == s + ":" + x + ":" + msg;
    SplitFormattedLine(s, x, msg);
    DisplayRoundTrip(stash, sha1New);
    DisplayRoundTrip(index, sha1New);
    ParseTwoHashes(line, s, x, Split(msg, ':'), sha1New);
  }

  /**
   * Parse after format: a message without ':' or '\n' survives, a missing index comes back as
   * the default hash, and when SHA1::new keeps the bytes both hashes come back unchanged.
   */
  lemma RecordRoundTrip(entry: StashEntry, sha1New: Sha1New)
    requires IsAscii(entry.message) && ':' !in entry.message && '\n' !in entry.message
    ensures ParseRecord(FormatRecord(entry), sha1New) ==
      Some(StashEntry(sha1New(entry.stashCommit.bytes),
                      Some(sha1New(entry.indexCommit.GetOr(DefaultHash()).bytes)), entry.message))
    ensures Wraps(sha1New) ==>
      ParseRecord(FormatRecord(entry), sha1New) ==
      Some(StashEntry(entry.stashCommit, Some(entry.indexCommit.GetOr(DefaultHash())), entry.message))
  {
    var index := entry.indexCommit.GetOr(DefaultHash());
    ParseFormattedLine(entry.stashCommit, index, entry.message, sha1New);
    assert FormatRecord(entry) == FormatRecord(StashEntry(entry.stashCommit, Some(index), entry.message));
  }

  /** Text after a further ':' in the message is lost: only the part before it is read back. */
  lemma MessageWithColonIsTruncated(stash: Sha1, index: Option<Sha1>, before: string, after: string,
                                    sha1New: Sha1New)
    requires IsAscii(before) && IsAscii(after)
    requires ':' !in before && '\n' !in before && '\n' !in after
    ensures IsAscii(before + ":" + after)
    ensures ParseRecord(FormatRecord(StashEntry(stash, index, before + ":" + after)), sha1New) ==
      Some(StashEntry(sha1New(stash.bytes), Some(sha1New(index.GetOr(DefaultHash()).bytes)), before))
  {
    var msg := before + ":" + after;
    AsciiConcat(before, ":");
    AsciiConcat(before + ":", after);
    ParseFormattedLine(stash, index.GetOr(DefaultHash()), msg, sha1New);
    assert FormatRecord(StashEntry(stash, index, msg)) ==
      FormatRecord(StashEntry(stash, Some(index.GetOr(DefaultHash())), msg));
    SplitAfterField(before, after);
  }


  /** Empty content, or a first line without ':', reads as no stash. */
  lemma ParseNeedsTwoFields(content: string, sha1New: Sha1New)
    requires IsAscii(content)
    requires content == "" || ':' !in FirstLine(content).value
    ensures ParseRecord(content, sha1New) == None
  {
  }

  /** An empty index field reads as no index commit; the message field is optional. */
  lemma EmptyIndexField(stash: Sha1, sha1New: Sha1New)
    ensures IsAscii(Display(stash) + ":")
    ensures ParseRecord(Display(stash) + ":", sha1New) == Some(StashEntry(sha1New(stash.bytes), None, ""))
  {
    AsciiConcat(Display(stash), ":");
    var s := Display(stash);
    HexHasNoSeparator(stash.bytes);
    assert '\n' !in s + ":";
    FirstLineOfSingleLine(s + ":");
    SplitAfterField(s, "");
    assert s + ":" + "" == s + ":";
    assert Split(s + ":", ':') == [s, ""];
    DisplayRoundTrip(stash, sha1New);
  }

  /** A non-empty index field that is not a hash makes the whole record unreadable. */
  lemma BadIndexFieldRejects(stash: Sha1, index: string, message: string, sha1New: Sha1New)
    requires IsAscii(index) && IsAscii(message)
    requires index != "" && FromStr(index, sha1New).Err?
    requires ':' !in index && '\n' !in index + message
    ensures IsAscii(Display(stash) + ":" + index + ":" + message)
    ensures ParseRecord(Display(stash) + ":" + index + ":" + message, sha1New) == None
  {
    var s := Display(stash);
    AsciiFields(s, index, message);
    HexHasNoSeparator(stash.bytes);
    var line := s + ":" + index + ":" + message;
    assert line == s + ":" + (index + ":" + message);
    assert '\n' !in index + ":" + message by {
      assert forall c :: c in index + ":" + message ==> c in index + message || c == ':';
    }
    assert '\n' !in line;
    FirstLineOfSingleLine(line);
    SplitAfterField(s, index + ":" + message);
    SplitAfterField(index, message);
    DisplayRoundTrip(stash, sha1New);
  }

  /** An empty stash field reads as the default hash, since from_str accepts "". */
  lemma EmptyStashField(message: string, sha1New: Sha1New)
    requires IsAscii(message) && ':' !in message && '\n' !in message
    ensures IsAscii("::" + message)
    ensures ParseRecord("::" + message, sha1New) == Some(StashEntry(DefaultHash(), None, message))
  {
    AsciiFields("", "", message);
    assert "" + ":" + "" + ":" + message == "::" + message;
    SplitAfterField("", ":" + message);
    assert "" + ":" + (":" + message) == "::" + message;
    SplitAfterField("", message);
    assert "" + ":" + message == ":" + message;
    assert Split("::" + message, ':') == ["", "", message];
    FirstLineOfSingleLine("::" + message);
  }

  /** The first line ends before a "\r\n" line end, the '\r' dropped with it. */
  lemma FirstLineStripsCrLf(line: string, rest: string)
    requires '\n' !in line
    ensures FirstLine(line + "\r\n" + rest) == Some(line)
  {
    var content := line + "\r\n" + rest;
    IndexOfFirst(content, line + "\r", '\n');
    assert content[..|line|] == line;
  }

  /** The first c of p + [c] + q is at |p| when p holds none. */
  lemma IndexOfFirst(s: string, p: string, c: char)
    requires c !in p && |p| < |s| && s[..|p|] == p && s[|p|] == c
    ensures IndexOf(s, c) == |p|
    decreases |p|
  {
    if |p| > 0 {
      assert s[1..][..|p| - 1] == p[1..];
      IndexOfFirst(s[1..], p[1..], c);
    }
  }
}
