/**
 The seek command a client may send instead of data, `AESDCHAR_IOCSEEKTO:<write>,<offset>`, and the
 scan for it over a received packet (findCommand in aesdsocket.c).
 */
module SeekCommand {
  import opened Bytes

  /** A value as a uint32_t keeps it. */
  function Uint32(n: nat): (r: nat)
    ensures r < 0x1_0000_0000
    ensures n < 0x1_0000_0000 ==> r == n
  {
    n % 0x1_0000_0000
  }

  /** "AESDCHAR_IOCSEEKTO:" */
  const SEEKTO_COMMAND: seq<byte> :=
    [65, 69, 83, 68, 67, 72, 65, 82, 95, 73, 79, 67, 83, 69, 69, 75, 84, 79, 58]

  datatype Seekto = Seekto(writeCmd: nat, writeCmdOffset: nat)

  predicate IsDigit(b: byte) {
    ZERO <= b <= NINE
  }

  predicate AllDigits(s: seq<byte>) {
    forall k :: 0 <= k < |s| ==> IsDigit(s[k])
  }

  predicate DigitsOrCommas(s: seq<byte>) {
    forall k :: 0 <= k < |s| ==> IsDigit(s[k]) || s[k] == COMMA
  }

  /** The part of `s` in front of the first `x`, or all of it. */
  function Before(s: seq<byte>, x: byte): (r: seq<byte>)
    ensures r <= s && x !in r
    ensures x in s <==> |r| < |s|
    ensures |r| < |s| ==> s[|r|] == x
  {
    if s == [] || s[0] == x then [] else [s[0]] + Before(s[1..], x)
  }

  /** The part of `s` behind the first `x`, or nothing. */
  function After(s: seq<byte>, x: byte): seq<byte> {
    if x in s then s[|Before(s, x)| + 1..] else []
  }

  function DropCommas(s: seq<byte>): (r: seq<byte>)
    ensures DigitsOrCommas(s) ==> AllDigits(r)
  {
    if s == [] then []
    else DropCommas(s[..|s| - 1]) + if s[|s| - 1] == COMMA then [] else [s[|s| - 1]]
  }

  /** The number a string of digits denotes. */
  function Value(ds: seq<byte>): nat
    requires AllDigits(ds)
  {
    if ds == [] then 0 else Value(ds[..|ds| - 1]) * 10 + (ds[|ds| - 1] - ZERO)
  }

  /** The digits of a number, as printed in decimal. */
  function Decimal(n: nat): (ds: seq<byte>)
    ensures AllDigits(ds)
  {
    if n < 10 then [ZERO + n] else Decimal(n / 10) + [ZERO + n % 10]
  }

  /**
   What the first line of a packet asks for: the command, digits, a comma, then digits in which
   further commas are passed over. Either number may lack digits; both are taken modulo 2^32.
   */
  function Parse(command: seq<byte>, line: seq<byte>): Option<Seekto> {
    if !(command <= line) then None
    else
      var rest := line[|command|..];
      if COMMA !in rest || !DigitsOrCommas(rest) then None
      else Some(Numbers(rest))
  }

  /** The offset's digits and commas, read as a number. */
  function OffsetValue(os: seq<byte>): nat
    requires DigitsOrCommas(os)
  {
    Uint32(Value(DropCommas(os)))
  }

  function Numbers(rest: seq<byte>): Seekto
    requires DigitsOrCommas(rest)
  {
    assert AllDigits(Before(rest, COMMA));
    Seekto(Uint32(Value(Before(rest, COMMA))), OffsetValue(After(rest, COMMA)))
  }

  lemma {:induction false} BeforeUnique(s: seq<byte>, x: byte, r: seq<byte>)
    requires r <= s && x !in r && (|r| < |s| ==> s[|r|] == x)
    ensures Before(s, x) == r
  {
    if s == [] || s[0] == x {
    } else {
      assert r != [];
      BeforeUnique(s[1..], x, r[1..]);
    }
  }

  predicate IsCommand(command: seq<byte>, line: seq<byte>, ds: seq<byte>, os: seq<byte>) {
    AllDigits(ds) && DigitsOrCommas(os) && line == command + ds + [COMMA] + os
  }

  lemma SplitCommand(command: seq<byte>, ds: seq<byte>, os: seq<byte>)
    ensures command + (ds + [COMMA] + os) == command + ds + [COMMA] + os
  {
  }

  /** The lines that are commands, and what they ask for: exactly those of the form described. */
  lemma Language(command: seq<byte>, line: seq<byte>)
    ensures forall ds: seq<byte>, os: seq<byte> :: IsCommand(command, line, ds, os) ==>
              Parse(command, line) == Some(Seekto(Uint32(Value(ds)), Uint32(Value(DropCommas(os)))))
    ensures forall ds: seq<byte>, os: seq<byte> :: IsCommand(command, line, ds, os) ==> AsksFor(command, line, ds, os)
    ensures Parse(command, line).Some? ==> exists ds: seq<byte>, os: seq<byte> :: IsCommand(command, line, ds, os)
  {
    forall ds: seq<byte>, os: seq<byte> | IsCommand(command, line, ds, os)
      ensures Parse(command, line) == Some(Seekto(Uint32(Value(ds)), Uint32(Value(DropCommas(os)))))
      ensures AsksFor(command, line, ds, os)
    {
      CommandParses(command, ds, os);
      NumbersWrap(command, ds, os);
    }
    if Parse(command, line).Some? {
      var rest := line[|command|..];
      ParsedIsCommand(command, line, Before(rest, COMMA), After(rest, COMMA));
    }
  }

  /** What is kept of a number: below 2^32, and different from it by a multiple of 2^32. */
  predicate Wraps(kept: nat, n: nat) {
    kept < 0x1_0000_0000 && (n - kept) % 0x1_0000_0000 == 0
  }

  lemma Uint32Wraps(n: nat)
    ensures Wraps(Uint32(n), n)
  {
  }

  lemma WrapsUniquely(kept: nat, n: nat)
    requires Wraps(kept, n)
    ensures Uint32(n) == kept
  {
    Uint32Wraps(n);
  }

  /** What the line asks for is what is kept of the two numbers written. */
  predicate AsksFor(command: seq<byte>, line: seq<byte>, ds: seq<byte>, os: seq<byte>)
    requires AllDigits(ds) && DigitsOrCommas(os)
  {
    var r := Parse(command, line);
    && r.Some?
    && Wraps(r.value.writeCmd, Value(ds))
    && Wraps(r.value.writeCmdOffset, Value(DropCommas(os)))
  }

  /** Both numbers of a command wrap around, however many digits they have. */
  lemma NumbersWrap(command: seq<byte>, ds: seq<byte>, os: seq<byte>)
    requires AllDigits(ds) && DigitsOrCommas(os)
    ensures AsksFor(command, command + ds + [COMMA] + os, ds, os)
  {
    CommandParses(command, ds, os);
    Uint32Wraps(Value(ds));
    Uint32Wraps(Value(DropCommas(os)));
  }

  lemma ParsedIsCommand(command: seq<byte>, line: seq<byte>, ds: seq<byte>, os: seq<byte>)
    requires Parse(command, line).Some?
    requires ds == Before(line[|command|..], COMMA) && os == After(line[|command|..], COMMA)
    ensures IsCommand(command, line, ds, os)
  {
    SplitBack(line[|command|..], COMMA);
    SplitCommand(command, ds, os);
    assert line == command + line[|command|..];
  }

  lemma SplitBack(s: seq<byte>, x: byte)
    requires x in s
    ensures s == Before(s, x) + [x] + After(s, x)
  {
  }

  lemma CommandParses(command: seq<byte>, ds: seq<byte>, os: seq<byte>)
    requires AllDigits(ds) && DigitsOrCommas(os)
    ensures Parse(command, command + ds + [COMMA] + os)
         == Some(Seekto(Uint32(Value(ds)), Uint32(Value(DropCommas(os)))))
  {
    var rest := ds + [COMMA] + os;
    SplitCommand(command, ds, os);
    SplitAtComma(ds, os);
    ParseBehind(command, rest);
  }

  lemma ParseBehind(command: seq<byte>, rest: seq<byte>)
    requires COMMA in rest && DigitsOrCommas(rest)
    ensures Parse(command, command + rest) == Some(Numbers(rest))
  {
    assert (command + rest)[|command|..] == rest;
  }

  lemma SplitAtComma(ds: seq<byte>, os: seq<byte>)
    requires AllDigits(ds)
    ensures Before(ds + [COMMA] + os, COMMA) == ds && After(ds + [COMMA] + os, COMMA) == os
    ensures COMMA in ds + [COMMA] + os
    ensures DigitsOrCommas(os) ==> DigitsOrCommas(ds + [COMMA] + os)
  {
    var rest := ds + [COMMA] + os;
    assert rest[|ds|] == COMMA;
    BeforeUnique(rest, COMMA, ds);
  }

  /** A printed number is read back, and no prefix of it is larger, so reading it wraps nowhere. */
  lemma {:induction false} ValueOfDecimal(n: nat)
    ensures Value(Decimal(n)) == n
    ensures forall k :: 0 <= k <= |Decimal(n)| ==> Value(Decimal(n)[..k]) <= n
  {
    var ds := Decimal(n);
    if n < 10 {
      assert ds[..0] == [] && ds[..1] == ds;
    } else {
      ValueOfDecimal(n / 10);
      assert ds[..|ds| - 1] == Decimal(n / 10);
      forall k | 0 <= k <= |ds|
        ensures Value(ds[..k]) <= n
      {
        if k < |ds| {
          assert ds[..k] == Decimal(n / 10)[..k];
        } else {
          assert ds[..k] == ds;
        }
      }
    }
  }

  /** The digits are decimal, the most significant first: a digit in front counts for its power of ten. */
  lemma {:induction false} ValueIsPositional(d: byte, ds: seq<byte>)
    requires 48 <= d <= 57 && AllDigits(ds)
    ensures AllDigits([d] + ds)
    ensures Value([d] + ds) == (d - 48) * PowerOfTen(|ds|) + Value(ds)
  {
    var all := [d] + ds;
    if ds == [] {
      assert all[..0] == [];
    } else {
      var n := |ds| - 1;
      ValueIsPositional(d, ds[..n]);
      assert all[..n + 1] == [d] + ds[..n];
      assert (d - 48) * PowerOfTen(n) * 10 == (d - 48) * PowerOfTen(n + 1);
    }
  }

  function PowerOfTen(n: nat): nat {
    if n == 0 then 1 else 10 * PowerOfTen(n - 1)
  }

  /** Dropping commas takes out each comma and leaves everything else in place. */
  lemma {:induction false} DropCommasFilters(a: seq<byte>, b: seq<byte>)
    ensures DropCommas(a + b) == DropCommas(a) + DropCommas(b)
  {
    if b == [] {
      assert a + b == a;
    } else {
      var front, x := b[..|b| - 1], b[|b| - 1];
      DropCommasFilters(a, front);
      assert b == front + [x] && a + b == (a + front) + [x];
      DropCommasStep(front, x);
      DropCommasStep(a + front, x);
      Assoc(DropCommas(a), DropCommas(front), [x]);
    }
  }

  lemma DropOneComma(x: byte)
    ensures DropCommas([x]) == if x == 44 then [] else [x]
  {
    assert [x][..0] == [];
  }

  lemma {:induction false} DropNoCommas(s: seq<byte>)
    requires AllDigits(s)
    ensures DropCommas(s) == s
  {
    if s == [] {
    } else {
      DropNoCommas(s[..|s| - 1]);
    }
  }

  /** A printed number, read as an offset. */
  lemma OffsetOfDecimal(n: nat)
    ensures DropCommas(Decimal(n)) == Decimal(n) && Value(Decimal(n)) == n
  {
    ValueOfDecimal(n);
    DropNoCommas(Decimal(n));
  }

  function CommandLine(command: seq<byte>, c: nat, o: nat): seq<byte> {
    command + Decimal(c) + [COMMA] + Decimal(o)
  }

  /** A text as the bytes of its characters. */
  function Ascii(text: string): (bytes: seq<byte>)
    requires forall k :: 0 <= k < |text| ==> text[k] < 128 as char
    ensures |bytes| == |text| && forall k :: 0 <= k < |text| ==> bytes[k] == text[k] as int
  {
    seq(|text|, k requires 0 <= k < |text| => text[k] as int)
  }

  lemma TwoDigits(high: nat, a: nat, b: nat)
    requires 0 < high && a < 10 && b < 10
    ensures Decimal(high * 100 + a * 10 + b) == Decimal(high) + [48 + a, 48 + b]
  {
    var n := high * 100 + a * 10 + b;
    assert n / 10 == high * 10 + a && n % 10 == b;
    assert (high * 10 + a) / 10 == high && (high * 10 + a) % 10 == a;
    Assoc(Decimal(high), [48 + a], [48 + b]);
  }

  /** The digits of 2^32 + 1. */
  lemma WrappingDigits()
    ensures var ds := Ascii("4294967297"); AllDigits(ds) && Value(ds) == 4294967297
  {
    TwoDigits(4, 2, 9);
    TwoDigits(429, 4, 9);
    TwoDigits(42949, 6, 7);
    TwoDigits(4294967, 2, 9);
    var high := Decimal(4294967);
    assert Decimal(4) == [52];
    assert Decimal(42949) == [52, 50, 57] + [52, 57];
    assert high == [52, 50, 57, 52, 57] + [54, 55];
    assert Decimal(429496729) == [52, 50, 57, 52, 57, 54, 55] + [50, 57];
    assert Decimal(4294967297) == Decimal(429496729) + [48 + 7];
    assert Decimal(4294967297) == Ascii("4294967297");
    ValueOfDecimal(4294967297);
  }

  lemma WrapsToOne(n: nat)
    requires n == 4294967297
    ensures Wraps(1, n)
  {
  }

  /** A write number of 2^32 + 1 is taken for 1. */
  lemma WrapExample()
    ensures Parse(SEEKTO_COMMAND, Ascii("AESDCHAR_IOCSEEKTO:") + Ascii("4294967297") + Ascii(",") + Ascii("2"))
         == Some(Seekto(1, 2))
  {
    var ds, os := Ascii("4294967297"), Ascii("2");
    Characters();
    WrappingDigits();
    assert os == [50] && [COMMA] == Ascii(",");
    OffsetOfDecimal(2);
    assert Decimal(2) == os;
    CommandParses(SEEKTO_COMMAND, ds, os);
    WrapsToOne(Value(ds));
    WrapsUniquely(1, Value(ds));
  }

  /** A byte counts as a digit exactly when it is one of the ten digit characters, and counts for its place there. */
  lemma DigitCharacters(b: byte)
    ensures IsDigit(b) <==> b in Ascii("0123456789")
    ensures IsDigit(b) ==> Ascii("0123456789")[b - ZERO] == b && Value([b]) == b - ZERO
  {
    var digits := Ascii("0123456789");
    if IsDigit(b) {
      assert digits[b - ZERO] == b;
      assert [b][..0] == [];
    }
  }

  /** The bytes the scan compares with are those of the program's character constants. */
  lemma Characters()
    ensures SEEKTO_COMMAND == Ascii("AESDCHAR_IOCSEEKTO:")
    ensures [NEWLINE, COMMA, ZERO, NINE] == Ascii("\n,09")
  {
  }

  /** A printed command is read back as it was meant. */
  lemma RoundTrip(command: seq<byte>, c: nat, o: nat)
    requires c < 0x1_0000_0000 && o < 0x1_0000_0000
    ensures Parse(command, CommandLine(command, c, o)) == Some(Seekto(c, o))
  {
    var ds, os := Decimal(c), Decimal(o);
    assert Value(ds) == c && Value(os) == o by {
      ValueOfDecimal(c);
      ValueOfDecimal(o);
    }
    DropNoCommas(os);
    CommandParses(command, ds, os);
  }

  /** What the scan looks at: of each piece of the packet, the part in front of its newline. */
  function Scanned(chunks: seq<seq<byte>>): seq<byte> {
    if chunks == [] then [] else Before(chunks[0], NEWLINE) + Scanned(chunks[1..])
  }

  /** No piece but the last has a newline. */
  predicate EndsAtNewline(chunks: seq<seq<byte>>) {
    forall k :: 0 <= k < |chunks| - 1 ==> !HasNewline(chunks[k])
  }

  /** Then how a packet was cut into pieces does not matter: the scan sees its first line. */
  lemma {:induction false} ScanSeesFirstLine(chunks: seq<seq<byte>>)
    requires EndsAtNewline(chunks)
    ensures Scanned(chunks) == Before(Flatten(chunks), NEWLINE)
  {
    if chunks == [] {
    } else {
      assert EndsAtNewline(chunks[1..]) by {
        forall k | 0 <= k < |chunks[1..]| - 1
          ensures !HasNewline(chunks[1..][k])
        {
          assert chunks[1..][k] == chunks[k + 1];
        }
      }
      ScanSeesFirstLine(chunks[1..]);
      if |chunks| == 1 {
        FlattenSingle(chunks[0]);
        assert chunks == [chunks[0]];
      } else {
        assert !HasNewline(chunks[0]);
        BeforeConcat(chunks[0], Flatten(chunks[1..]));
      }
    }
  }

  lemma BeforeConcat(a: seq<byte>, b: seq<byte>)
    requires !HasNewline(a)
    ensures Before(a, NEWLINE) == a
    ensures Before(a + b, NEWLINE) == a + Before(b, NEWLINE)
  {
    BeforeUnique(a + b, NEWLINE, a + Before(b, NEWLINE));
  }

  lemma {:induction false} ScannedConcat(a: seq<seq<byte>>, b: seq<seq<byte>>)
    ensures Scanned(a + b) == Scanned(a) + Scanned(b)
  {
    if a == [] {
      assert a + b == b;
    } else {
      ScannedConcat(a[1..], b);
      assert (a + b)[1..] == a[1..] + b;
      Assoc(Before(a[0], NEWLINE), Scanned(a[1..]), Scanned(b));
    }
  }

  /** No continuation of `done` is a command. */
  predicate Rejected(command: seq<byte>, done: seq<byte>) {
    if |done| <= |command| then !(done <= command)
    else !(command <= done) || !DigitsOrCommas(done[|command|..])
  }

  lemma PrefixOfPrefix(a: seq<byte>, b: seq<byte>, s: seq<byte>)
    requires a <= s && b <= s && |a| <= |b|
    ensures a <= b
  {
  }

  lemma RejectedForGood(command: seq<byte>, done: seq<byte>, more: seq<byte>)
    requires Rejected(command, done)
    ensures Parse(command, done + more) == None
  {
    var line := done + more;
    if |done| <= |command| {
      if command <= line {
        PrefixOfPrefix(done, command, line);
      }
    } else {
      assert line[..|command|] == done[..|command|];
      assert line[|command|..] == done[|command|..] + more;
      assert !DigitsOrCommas(done[|command|..]) ==> !DigitsOrCommas(done[|command|..] + more) by {
        assert forall k :: 0 <= k < |done[|command|..]| ==> (done[|command|..] + more)[k] == done[|command|..][k];
      }
    }
  }

  /** The variables of the scan. */
  datatype Scan = Scan(i: nat, commandFound: bool, writeCmdFound: bool, writeCmd: nat, writeCmdOffset: nat) {
    /** What they say about the bytes seen so far. */
    ghost predicate Covers(command: seq<byte>, seen: seq<byte>) {
      if commandFound then
        && command <= seen
        && Reads(seen[|command|..])
      else
        i == |seen| < |command| && seen <= command && !writeCmdFound && writeCmd == writeCmdOffset == 0
    }

    /** What they say about the bytes behind the command. */
    ghost predicate Reads(rest: seq<byte>) {
      && DigitsOrCommas(rest)
      && writeCmdFound == (COMMA in rest)
      && Numbers(rest) == Seekto(writeCmd, writeCmdOffset)
    }

    /** The variables after one more byte behind the command. */
    function TakeNumberByte(b: byte): Scan
      requires IsDigit(b) || b == COMMA
    {
      if b == COMMA then this.(writeCmdFound := true)
      else if !writeCmdFound then this.(writeCmd := Uint32(writeCmd * 10 + (b - ZERO)))
      else this.(writeCmdOffset := Uint32(writeCmdOffset * 10 + (b - ZERO)))
    }

    lemma ReadsNumberByte(rest: seq<byte>, b: byte)
      requires Reads(rest) && (IsDigit(b) || b == COMMA)
      ensures TakeNumberByte(b).Reads(rest + [b])
    {
      NumbersStep(rest, b);
      assert COMMA in rest + [b] <==> COMMA in rest || b == COMMA;
      assert Numbers(rest) == Seekto(writeCmd, writeCmdOffset);
    }
  }

  /** One more byte behind the command. */
  lemma NumbersStep(rest: seq<byte>, b: byte)
    requires DigitsOrCommas(rest) && (IsDigit(b) || b == COMMA)
    ensures DigitsOrCommas(rest + [b])
    ensures COMMA in rest + [b] <==> COMMA in rest || b == COMMA
    ensures var Seekto(c, o) := Numbers(rest);
            Numbers(rest + [b]) ==
              if b == COMMA then Seekto(c, o)
              else if COMMA in rest then Seekto(c, Uint32(o * 10 + (b - ZERO)))
              else Seekto(Uint32(c * 10 + (b - ZERO)), o)
  {
    if COMMA in rest {
      OffsetStep(rest, b);
    } else if b == COMMA {
      BeforeUnique(rest, COMMA, rest);
      BeforeUnique(rest + [b], COMMA, rest);
      assert After(rest + [b], COMMA) == [];
    } else {
      BeforeUnique(rest, COMMA, rest);
      BeforeUnique(rest + [b], COMMA, rest + [b]);
      ValueStep(rest, b, rest + [b]);
    }
  }

  lemma OffsetStep(rest: seq<byte>, b: byte)
    requires DigitsOrCommas(rest) && COMMA in rest && (IsDigit(b) || b == COMMA)
    ensures DigitsOrCommas(rest + [b])
    ensures var Seekto(c, o) := Numbers(rest);
            Numbers(rest + [b]) == Seekto(c, if b == COMMA then o else Uint32(o * 10 + (b - ZERO)))
  {
    var os := After(rest, COMMA);
    AfterStep(rest, b);
    OffsetValueStep(os, b, os + [b]);
  }

  lemma OffsetValueStep(os: seq<byte>, b: byte, os': seq<byte>)
    requires DigitsOrCommas(os) && (IsDigit(b) || b == COMMA) && os' == os + [b]
    ensures DigitsOrCommas(os')
    ensures OffsetValue(os') == if b == COMMA then OffsetValue(os) else Uint32(OffsetValue(os) * 10 + (b - ZERO))
  {
    DropCommasStep(os, b);
    if b != COMMA {
      ValueStep(DropCommas(os), b, DropCommas(os'));
    }
  }

  lemma AfterStep(rest: seq<byte>, b: byte)
    requires COMMA in rest
    ensures Before(rest + [b], COMMA) == Before(rest, COMMA)
    ensures After(rest + [b], COMMA) == After(rest, COMMA) + [b]
  {
    BeforeUnique(rest + [b], COMMA, Before(rest, COMMA));
  }

  lemma DropCommasStep(os: seq<byte>, b: byte)
    ensures DropCommas(os + [b]) == if b == COMMA then DropCommas(os) else DropCommas(os) + [b]
  {
    assert (os + [b])[..|os|] == os;
  }

  /** Appending a digit, computed modulo 2^32 from a number already reduced. */
  lemma ValueStep(ds: seq<byte>, b: byte, ds': seq<byte>)
    requires AllDigits(ds) && IsDigit(b) && ds' == ds + [b]
    ensures AllDigits(ds') && Uint32(Value(ds')) == Uint32(Uint32(Value(ds)) * 10 + (b - ZERO))
  {
    assert ds'[..|ds|] == ds;
    ReducedStep(Value(ds), b - ZERO);
  }

  lemma ReducedStep(v: nat, d: nat)
    ensures Uint32(v * 10 + d) == Uint32(Uint32(v) * 10 + d)
  {
    var q := v / 0x1_0000_0000;
    assert v * 10 + d == (v % 0x1_0000_0000) * 10 + d + 0x1_0000_0000 * (q * 10);
  }

  lemma CommandByte(command: seq<byte>, seen: seq<byte>, scan: Scan, b: byte)
    requires scan.Covers(command, seen) && !scan.commandFound && command[scan.i] == b
    ensures scan.(i := scan.i + 1, commandFound := scan.i + 1 == |command|).Covers(command, seen + [b])
  {
    if scan.i + 1 == |command| {
      assert seen + [b] == command;
      assert (seen + [b])[|command|..] == [];
    }
  }

  lemma NumberByte(command: seq<byte>, seen: seq<byte>, scan: Scan, b: byte)
    requires scan.Covers(command, seen) && scan.commandFound && (IsDigit(b) || b == COMMA)
    ensures scan.TakeNumberByte(b).Covers(command, seen + [b])
  {
    scan.ReadsNumberByte(seen[|command|..], b);
    RestExtends(command, seen, b);
  }

  lemma RestExtends(command: seq<byte>, seen: seq<byte>, b: byte)
    requires command <= seen
    ensures command <= seen + [b] && (seen + [b])[|command|..] == seen[|command|..] + [b]
  {
  }

  lemma WrongByte(command: seq<byte>, seen: seq<byte>, scan: Scan, b: byte)
    requires scan.Covers(command, seen)
    requires if scan.commandFound then !IsDigit(b) && b != COMMA else command[scan.i] != b
    ensures Rejected(command, seen + [b])
  {
    if scan.commandFound {
      var rest := seen[|command|..];
      RestExtends(command, seen, b);
      assert (rest + [b])[|rest|] == b;
    }
  }

  /** One piece of a received packet. */
  class RecvNode {
    const buffer: seq<byte>
    var next: RecvNode?

    constructor (buffer: seq<byte>)
      ensures this.buffer == buffer && next == null
    {
      this.buffer, next := buffer, null;
    }
  }

  /** The list from `head` on consists of `nodes`, which hold the pieces `chunks`. */
  ghost predicate IsPacket(head: RecvNode?, nodes: seq<RecvNode>, chunks: seq<seq<byte>>)
    reads nodes`next
  {
    && |chunks| == |nodes|
    && (forall k {:trigger nodes[k]} :: 0 <= k < |nodes| ==> nodes[k].buffer == chunks[k])
    && (forall k {:trigger nodes[k].next} :: 0 <= k < |nodes| - 1 ==> nodes[k].next == nodes[k + 1])
    && (if nodes == [] then head == null else head == nodes[0] && nodes[|nodes| - 1].next == null)
  }

  /** One byte in front of the newline. No result when the packet cannot be a command any more. */
  method ScanByte(b: byte, command: seq<byte>, scan: Scan, ghost seen: seq<byte>) returns (r: Option<Scan>)
    requires scan.Covers(command, seen)
    ensures r.Some? ==> r.value.Covers(command, seen + [b])
    ensures r.None? ==> Rejected(command, seen + [b])
  {
    var Scan(i, commandFound, writeCmdFound, writeCmd, writeCmdOffset) := scan;
    if !commandFound {
      if command[i] != b {
        WrongByte(command, seen, scan, b);
        return None;
      }
      CommandByte(command, seen, scan, b);
      return Some(scan.(i := i + 1, commandFound := i + 1 == |command|));
    }
    if b != COMMA && (b < ZERO || b > NINE) {
      WrongByte(command, seen, scan, b);
      return None;
    }
    var next := scan;
    if b == COMMA {
      next := scan.(writeCmdFound := true);
    } else if !writeCmdFound {
      next := scan.(writeCmd := Uint32(writeCmd * 10 + (b - ZERO)));
    } else {
      next := scan.(writeCmdOffset := Uint32(writeCmdOffset * 10 + (b - ZERO)));
    }
    assert next == scan.TakeNumberByte(b);
    NumberByte(command, seen, scan, b);
    return Some(next);
  }

  /** The inner loop: one node, up to its newline. */
  method ScanNode(buffer: seq<byte>, command: seq<byte>, scan: Scan, ghost done: seq<byte>) returns (r: Option<Scan>)
    requires scan.Covers(command, done)
    ensures r.Some? ==> r.value.Covers(command, done + Before(buffer, NEWLINE))
    ensures r.None? ==> forall more :: Parse(command, done + Before(buffer, NEWLINE) + more) == None
  {
    var now, j := scan, 0;
    ghost var line, seen := Before(buffer, NEWLINE), done;
    while j < |buffer|
      invariant j <= |line| && buffer[..j] == line[..j]
      invariant seen == done + line[..j]
      invariant now.Covers(command, seen)
    {
      if buffer[j] == NEWLINE {
        break;
      }
      assert j < |line| && line[j] == buffer[j];
      Extend(done, line, j);
      var next := ScanByte(buffer[j], command, now, seen);
      if next == None {
        RejectedExtends(command, done, line, j + 1);
        return None;
      }
      now, seen := next.value, seen + [buffer[j]];
      j := j + 1;
    }
    assert j == |line| && line[..j] == line;
    return Some(now);
  }

  lemma Extend(done: seq<byte>, line: seq<byte>, j: nat)
    requires j < |line|
    ensures done + line[..j + 1] == done + line[..j] + [line[j]]
  {
  }

  lemma RejectedExtends(command: seq<byte>, done: seq<byte>, line: seq<byte>, j: nat)
    requires j <= |line| && Rejected(command, done + line[..j])
    ensures forall more :: Parse(command, done + line + more) == None
  {
    forall more: seq<byte>
      ensures Parse(command, done + line + more) == None
    {
      RejectedForGood(command, done + line[..j], line[j..] + more);
      assert done + line + more == done + line[..j] + (line[j..] + more);
    }
  }

  /** At the end of the packet the variables hold the answer. */
  lemma ScanEnds(command: seq<byte>, done: seq<byte>, scan: Scan)
    requires scan.Covers(command, done)
    ensures Parse(command, done)
         == if scan.writeCmdFound then Some(Seekto(scan.writeCmd, scan.writeCmdOffset)) else None
  {
  }

  /** Scans the list for the command, node by node. */
  method FindCommand(head: RecvNode?, command: seq<byte>, ghost nodes: seq<RecvNode>, ghost chunks: seq<seq<byte>>)
    returns (r: Option<Seekto>)
    requires IsPacket(head, nodes, chunks) && command != []
    ensures r == Parse(command, Scanned(chunks))
  {
    var scan := Scan(0, false, false, 0, 0);
    var node := head;
    ghost var k: nat, done := 0, [];
    while node != null
      invariant k <= |nodes| && (if k < |nodes| then node == nodes[k] else node == null)
      invariant done == Scanned(chunks[..k])
      invariant scan.Covers(command, done)
      decreases |nodes| - k
    {
      ScannedSplit(chunks, k);
      var next := ScanNode(node.buffer, command, scan, done);
      if next == None {
        return None;
      }
      scan, done := next.value, done + Before(chunks[k], NEWLINE);
      assert k + 1 < |nodes| ==> nodes[k].next == nodes[k + 1];
      node, k := node.next, k + 1;
    }
    assert chunks[..k] == chunks;
    ScanEnds(command, done, scan);
    return if scan.writeCmdFound then Some(Seekto(scan.writeCmd, scan.writeCmdOffset)) else None;
  }

  lemma ScannedSplit(chunks: seq<seq<byte>>, k: nat)
    requires k < |chunks|
    ensures Scanned(chunks[..k + 1]) == Scanned(chunks[..k]) + Before(chunks[k], NEWLINE)
    ensures Scanned(chunks) == Scanned(chunks[..k + 1]) + Scanned(chunks[k + 1..])
  {
    ScannedAround(chunks, k + 1);
    assert chunks[..k + 1] == chunks[..k] + [chunks[k]];
    ScannedOneMore(chunks[..k], chunks[k], chunks[..k + 1]);
  }

  lemma ScannedOneMore(a: seq<seq<byte>>, chunk: seq<byte>, all: seq<seq<byte>>)
    requires all == a + [chunk]
    ensures Scanned(all) == Scanned(a) + Before(chunk, NEWLINE)
  {
    ScannedSingle(chunk);
    ScannedConcat(a, [chunk]);
  }

  lemma ScannedAround(chunks: seq<seq<byte>>, k: nat)
    requires k <= |chunks|
    ensures Scanned(chunks) == Scanned(chunks[..k]) + Scanned(chunks[k..])
  {
    assert chunks == chunks[..k] + chunks[k..];
    ScannedConcat(chunks[..k], chunks[k..]);
  }

  lemma ScannedSingle(chunk: seq<byte>)
    ensures Scanned([chunk]) == Before(chunk, NEWLINE)
  {
    var one := [chunk];
    assert one[1..] == [];
  }
}
