/**
 * The wire codecs of network_functions.py: a move byte with the row in the high nibble
 * and the column in the low nibble, two 7-bit scores packed in one 16-bit word, the
 * out-of-bounds sentinel word, and strings framed by a big-endian length prefix.
 */
module NetworkFunctions {
  import opened Wrappers
  import opened Text
  import opened Bits
  import opened Utf8

  /** Bits 15 and 14 set: the word a server sends for an out-of-bounds move. */
  const OUT_OF_BOUNDS: nat := 0xC000

  /** The `struct` formats used for length prefixes and their widths in bytes. */
  const FORMAT_MAP: map<string, nat> := map["!H" := 2, "!B" := 1]

  datatype CodecError = NegativeInput | BadFlag | PackOverflow | DecodeError

  /** The argument kinds `is_empty_buffer` is called with. */
  datatype Buffer = Bytes(bytes: seq<byte>) | Str(text: string) | Number(value: int)

  function IsEmptyBuffer(x: Buffer): (r: bool)
    ensures r <==> x in {Bytes([]), Str(""), Number(0)}
  {
    match x
    case Bytes(b) => b == []
    case Str(s) => s == ""
    case Number(i) => i == 0
  }

  // ---------------------------------------------------------------- move byte

  /** `(row << 4) | col`, the move byte a client sends. */
  function PackMove(row: nat, col: nat): nat
  {
    Or(Shl(row, 4), col)
  }

  /** `byte_segment_to_space`: the row from bits 7-4 and the column from bits 3-0. */
  function ByteSegmentToSpace(data: int): (r: Result<(nat, nat), CodecError>)
    ensures r.Failure? <==> data < 0
    ensures r.Success? ==> r.value == ((data / 16) % 16, data % 16)
    ensures r.Success? ==> r.value.0 < 16 && r.value.1 < 16
  {
    if data < 0 then Failure(NegativeInput)
    else
      NibbleSplit(data);
      Success((Shr(And(data, 0xF0), 4), And(data, 0xF)))
  }

  /** A move packed by the client decodes to the same row and column, and fits one byte. */
  lemma MoveRoundTrip(row: nat, col: nat)
    requires row < 16 && col < 16
    ensures PackMove(row, col) == 16 * row + col < 256
    ensures ByteSegmentToSpace(PackMove(row, col)) == Success((row, col))
  {
    var d := 16 * row + col;
    assert PackMove(row, col) == d by {
      Pow2Values();
      OrShifted(row, col, 4);
      assert Shl(row, 4) == row * 16;
    }
    assert d < 256 by { Arith.MulMonotone(16, row, 15); }
    assert d / 16 == row && d % 16 == col by { Arith.ModUnique(d, row, col, 16); }
    assert row % 16 == row by { Arith.ModUnique(row, 0, row, 16); }
  }

  // ------------------------------------------------------------------- scores

  /** `score_into_byte`: the score masked to its low 7 bits. */
  function ScoreIntoByte(score: int): (r: Result<nat, CodecError>)
    ensures r.Failure? <==> score < 0
    ensures r.Success? ==> r.value == score % 128 && r.value < 128
    ensures r.Success? && score < 128 ==> r.value == score
  {
    if score < 0 then Failure(NegativeInput)
    else
      SevenSplit(score);
      Arith.ModOfSmall(score, 128);
      Success(And(score, 0x7F))
  }

  /** `(player1 << 7) | player2`, the score word the server sends. */
  function PackScores(player1: nat, player2: nat): nat
  {
    Or(Shl(player1, 7), player2)
  }

  /** `get_player_scores`: player 1 from bits 13-7 and player 2 from bits 6-0. */
  function GetPlayerScores(word: int): (r: Result<(nat, nat), CodecError>)
    ensures r.Failure? <==> word < 0
    ensures r.Success? ==> r.value == ((word / 128) % 128, word % 128)
    ensures r.Success? ==> r.value.0 < 128 && r.value.1 < 128
  {
    if word < 0 then Failure(NegativeInput)
    else
      SevenSplit(word);
      Success((Shr(And(word, 0x3F80), 7), And(word, 0x7F)))
  }

  /** Two 7-bit scores survive packing and unpacking, and the packed word stays below 2^14. */
  lemma ScoresRoundTrip(player1: nat, player2: nat)
    requires player1 < 128 && player2 < 128
    ensures PackScores(player1, player2) == 128 * player1 + player2 < 16384
    ensures GetPlayerScores(PackScores(player1, player2)) == Success((player1, player2))
  {
    var d := 128 * player1 + player2;
    assert PackScores(player1, player2) == d by {
      Pow2Values();
      OrShifted(player1, player2, 7);
      assert Shl(player1, 7) == player1 * 128;
    }
    assert d < 16384 by { Arith.MulMonotone(128, player1, 127); }
    assert d / 128 == player1 && d % 128 == player2 by { Arith.ModUnique(d, player1, player2, 128); }
    assert player1 % 128 == player1 by { Arith.ModUnique(player1, 0, player1, 128); }
  }

  /**
   * Scores pass through `score_into_byte` before packing, so what arrives is each score
   * modulo 128: a score of 130 is read back as 2.
   */
  lemma ScoresArriveModulo128(score1: nat, score2: nat)
    ensures GetPlayerScores(PackScores(ScoreIntoByte(score1).value, ScoreIntoByte(score2).value))
         == Success((score1 % 128, score2 % 128))
  {
    ScoresRoundTrip(score1 % 128, score2 % 128);
  }

  /** The sentinel is never a packed pair of 7-bit scores, and it unpacks to (0, 0). */
  lemma OutOfBoundsIsDistinct(player1: nat, player2: nat)
    requires player1 < 128 && player2 < 128
    ensures PackScores(player1, player2) != OUT_OF_BOUNDS
    ensures GetPlayerScores(OUT_OF_BOUNDS) == Success((0, 0))
  {
    ScoresRoundTrip(player1, player2);
  }

  // ---------------------------------------------------------- row/col check

  /** The two argument types `validate_row_col` accepts. */
  datatype RowColArg = IntArg(i: int) | StrArg(s: string)

  function ToInt(x: RowColArg): Option<int>
  {
    match x
    case IntArg(i) => Some(i)
    case StrArg(s) => ParseInt(s)
  }

  /** `validate_row_col`: both arguments convert to integers in 0..15; anything else is false. */
  function ValidateRowCol(row: RowColArg, col: RowColArg): (r: bool)
    ensures r <==> ToInt(row).Some? && ToInt(col).Some? &&
                   0 <= ToInt(row).value < 16 && 0 <= ToInt(col).value < 16
  {
    match (ToInt(row), ToInt(col))
    case (Some(r), Some(c)) => 0 <= r <= 15 && 0 <= c <= 15
    case _ => false
  }

  /** Every move `validate_row_col` lets through packs into one byte that decodes back. */
  lemma ValidatedMoveRoundTrip(row: RowColArg, col: RowColArg)
    requires ValidateRowCol(row, col)
    ensures var r, c := ToInt(row).value, ToInt(col).value;
      PackMove(r, c) < 256 && ByteSegmentToSpace(PackMove(r, c)) == Success((r, c))
  {
    MoveRoundTrip(ToInt(row).value, ToInt(col).value);
  }

  // ------------------------------------------------------------------ framing

  function Pow256(w: nat): (p: nat)
    ensures p >= 1
  {
    if w == 0 then 1 else 256 * Pow256(w - 1)
  }

  lemma Pow256Values()
    ensures Pow256(1) == 256 && Pow256(2) == 65536
  {
    assert Pow256(1) == 256 * Pow256(0);
  }

  /** `n` as `w` big-endian bytes (the low `w` bytes of `n`). */
  function BigEndian(n: nat, w: nat): (b: seq<byte>)
    ensures |b| == w
  {
    if w == 0 then [] else BigEndian(n / 256, w - 1) + [n % 256]
  }

  /** The value of a big-endian byte string. */
  function Unpack(b: seq<byte>): (n: nat)
    ensures n < Pow256(|b|)
  {
    if b == [] then 0 else 256 * Unpack(b[..|b| - 1]) + b[|b| - 1]
  }

  lemma {:induction false} UnpackBigEndian(n: nat, w: nat)
    requires n < Pow256(w)
    ensures Unpack(BigEndian(n, w)) == n
  {
    if w > 0 {
      var b := BigEndian(n, w);
      assert b[..|b| - 1] == BigEndian(n / 256, w - 1);
      UnpackBigEndian(n / 256, w - 1);
    }
  }

  /** `struct.pack(flag, n)` for the formats of FORMAT_MAP. */
  function Pack(flag: string, n: int): (r: Result<seq<byte>, CodecError>)
    ensures r.Success? <==> flag in FORMAT_MAP && 0 <= n < Pow256(FORMAT_MAP[flag])
    ensures r.Success? ==> |r.value| == FORMAT_MAP[flag] && Unpack(r.value) == n
  {
    if flag !in FORMAT_MAP then Failure(BadFlag)
    else if n < 0 || n >= Pow256(FORMAT_MAP[flag]) then Failure(PackOverflow)
    else
      UnpackBigEndian(n, FORMAT_MAP[flag]);
      Success(BigEndian(n, FORMAT_MAP[flag]))
  }

  /** The bytes `encode_and_write_data` writes: the packed character count, then `s.encode()`. */
  function EncodeFrame(flag: string, s: string): (r: Result<seq<byte>, CodecError>)
    ensures r.Success? <==> flag in FORMAT_MAP && |s| < Pow256(FORMAT_MAP[flag])
    ensures r.Success? ==> r.value == Pack(flag, |s|).value + Encode(s)
  {
    match Pack(flag, |s|)
    case Failure(e) => Failure(e)
    case Success(prefix) => Success(prefix + Encode(s))
  }

  /**
   * `receive_decoded_string` over the bytes available on the stream: the length prefix,
   * then that many bytes decoded as UTF-8; "" when either part is cut short.
   */
  function DecodeFrame(flag: string, stream: seq<byte>): (r: Result<string, CodecError>)
    ensures flag !in FORMAT_MAP ==> r == Failure(BadFlag)
    ensures flag in FORMAT_MAP && |stream| < FORMAT_MAP[flag] ==> r == Success("")
    ensures (flag in FORMAT_MAP && FORMAT_MAP[flag] <= |stream| &&
             |stream| - FORMAT_MAP[flag] < Unpack(stream[..FORMAT_MAP[flag]])) ==> r == Success("")
    ensures r.Failure? ==> r == Failure(BadFlag) || r == Failure(DecodeError)
  {
    if flag !in FORMAT_MAP || |flag| != 2 then Failure(BadFlag)
    else
      var w := FORMAT_MAP[flag];
      if |stream| < w then Success("")
      else
        var len := Unpack(stream[..w]);
        if |stream| - w < len then Success("")
        else match Decode(stream[w..w + len])
          case None => Failure(DecodeError)
          case Some(s) => Success(s)
  }

  lemma BigEndianTwo(n: nat)
    requires n < 65536
    ensures BigEndian(n, 2) == [n / 256, n % 256]
  {
    var hi := n / 256;
    assert hi < 256 by {
      assert n == 256 * hi + n % 256;
    }
    assert BigEndian(hi, 1) == [hi] by {
      Arith.ModOfSmall(hi, 256);
      assert BigEndian(hi, 1) == BigEndian(hi / 256, 0) + [hi % 256];
    }
  }

  /** The frame header is two bytes for "!H": the big-endian character count. */
  lemma EncodeFrameLayout(s: string)
    requires |s| < 65536
    ensures EncodeFrame("!H", s).Success?
    ensures EncodeFrame("!H", s).value == [|s| / 256, |s| % 256] + Encode(s)
  {
    Pow256Values();
    BigEndianTwo(|s|);
  }

  /** A string too long for the format's prefix cannot be framed (struct.error). */
  lemma EncodeFrameTooLong(s: string)
    ensures EncodeFrame("!H", s).Failure? <==> |s| >= 65536
    ensures EncodeFrame("!B", s).Failure? <==> |s| >= 256
  {
    Pow256Values();
  }

  /** An ASCII string framed as written is received intact, whatever follows it on the stream. */
  lemma AsciiFrameRoundTrip(flag: string, s: string, rest: seq<byte>)
    requires flag in FORMAT_MAP && |s| < Pow256(FORMAT_MAP[flag]) && IsAscii(s)
    ensures DecodeFrame(flag, EncodeFrame(flag, s).value + rest) == Success(s)
  {
    AsciiEncodeLength(s);
    DecodeEncode(s);
    var w := FORMAT_MAP[flag];
    var stream := EncodeFrame(flag, s).value + rest;
    assert stream[..w] == Pack(flag, |s|).value;
    assert stream[w..w + |s|] == Encode(s);
  }

  /** An empty string frames as a zero length prefix and reads back as "". */
  lemma EmptyFrame(rest: seq<byte>)
    ensures EncodeFrame("!H", "") == Success([0, 0])
    ensures DecodeFrame("!H", [0, 0] + rest) == Success("")
  {
    EncodeFrameLayout("");
    assert Encode("") == [];
    assert [0, 0] + Encode("") == [0, 0];
    assert ([0, 0] + rest)[..2] == [0, 0];
    assert Unpack([0, 0]) == 0 by {
      assert [0, 0][..1] == [0];
    }
  }

  /**
   * The prefix counts characters while the receiver counts bytes: "é" is framed as
   * [0, 1, 0xC3, 0xA9], the receiver takes the single byte 0xC3, and decoding fails.
   */
  lemma NonAsciiFrameFails()
    ensures EncodeFrame("!H", "é") == Success([0, 1, 0xC3, 0xA9])
    ensures DecodeFrame("!H", [0, 1, 0xC3, 0xA9]) == Failure(DecodeError)
  {
    EncodeFrameLayout("é");
    assert 'é' as int == 0xE9;
    assert EncodeChar('é') == [0xC3, 0xA9];
    assert Encode("é") == EncodeChar('é') + Encode("");
    assert Encode("é") == [0xC3, 0xA9];
    assert [1 / 256, 1 % 256] + Encode("é") == [0, 1, 0xC3, 0xA9];
    var f := [0, 1, 0xC3, 0xA9];
    assert f[..2] == [0, 1];
    assert Unpack([0, 1]) == 1 by {
      assert [0, 1][..1] == [0];
    }
    assert f[2..3] == [0xC3];
  }

  /** The frame with the prefix counting the bytes of `s.encode()`, as the receiver reads it. */
  function EncodeFrameBytes(flag: string, s: string): (r: Result<seq<byte>, CodecError>)
    ensures r.Success? <==> flag in FORMAT_MAP && |Encode(s)| < Pow256(FORMAT_MAP[flag])
    ensures r.Success? ==> r.value == Pack(flag, |Encode(s)|).value + Encode(s)
  {
    match Pack(flag, |Encode(s)|)
    case Failure(e) => Failure(e)
    case Success(prefix) => Success(prefix + Encode(s))
  }

  /** With a byte-count prefix every string that fits round-trips, ASCII or not. */
  lemma FrameBytesRoundTrip(flag: string, s: string, rest: seq<byte>)
    requires flag in FORMAT_MAP && |Encode(s)| < Pow256(FORMAT_MAP[flag])
    ensures DecodeFrame(flag, EncodeFrameBytes(flag, s).value + rest) == Success(s)
  {
    DecodeEncode(s);
    var w := FORMAT_MAP[flag];
    var e := Encode(s);
    var stream := EncodeFrameBytes(flag, s).value + rest;
    assert stream[..w] == Pack(flag, |e|).value;
    assert stream[w..w + |e|] == e;
  }

  /** On ASCII text the corrected frame is byte for byte the frame written today. */
  lemma FrameBytesAgreesOnAscii(flag: string, s: string)
    requires IsAscii(s)
    ensures EncodeFrameBytes(flag, s) == EncodeFrame(flag, s)
  {
    AsciiEncodeLength(s);
  }
}
