/** The Range header: `Parse` of internal/http_range/range.go, and the ranges a file reader may be given. */
module HttpRanges {
  import opened FileReaders
  import opened Records
  import opened Sequences
  import opened StoredFiles
  import opened Streams
  import opened Strings

  datatype Range = Range(start: int, end: int)

  /** `OutOfRange` is an index out of range: the call panics. */
  datatype ParseResult = Ranges(ranges: seq<Range>) | Invalid | NoOverlap | OutOfRange

  datatype Number = Number(value: int) | NotANumber

  // The string functions that `Parse` uses.

  /** `strings.Index` for one character; the length if there is none. */
  function Index(s: string, c: char): (k: nat)
    ensures k <= |s| && (k < |s| ==> s[k] == c)
    ensures c in s <==> k < |s|
  {
    if s == "" || s[0] == c then 0 else 1 + Index(s[1..], c)
  }

  function Digits(s: string): Number {
    if s == "" || !('0' <= s[|s| - 1] <= '9') then NotANumber
    else
      var digit := s[|s| - 1] as int - '0' as int;
      if |s| == 1 then Number(digit)
      else
        match Digits(s[..|s| - 1])
        case Number(front) => Number(10 * front + digit)
        case NotANumber => NotANumber
  }

  /** `strconv.ParseInt(s, 10, 64)`. */
  function ParseInt(s: string): Number {
    var negative := s != "" && s[0] == '-';
    var digits := if s != "" && (s[0] == '-' || s[0] == '+') then s[1..] else s;
    match Digits(digits)
    case NotANumber => NotANumber
    case Number(n) =>
      var value := if negative then -n else n;
      if -0x8000_0000_0000_0000 <= value < 0x8000_0000_0000_0000 then Number(value) else NotANumber
  }

  // What a piece of the header means.

  /** The bytes of a file of `size` bytes that "start-end", "start-" or "-count" asks for, if that is a range in it. */
  function Meaning(start: Number, end: Number, size: int): seq<Range> {
    var first := match start
      case Number(s) => s
      case NotANumber => if end.Number? then size - end.value else 0;
    var last := if start.Number? && end.Number? && end.value < size then end.value else size - 1;
    if (start.NotANumber? && end.NotANumber?) || first < 0 || first > last then [] else [Range(first, last)]
  }

  function PieceMeaning(piece: string, size: int): seq<Range>
    requires '-' in piece
  {
    var r := Split(piece, '-');
    Meaning(ParseInt(r[0]), ParseInt(r[1]), size)
  }

  function Meanings(pieces: seq<string>, size: int): seq<Range>
    requires forall i :: 0 <= i < |pieces| ==> '-' in pieces[i]
  {
    if pieces == [] then []
    else Meanings(pieces[..|pieces| - 1], size) + PieceMeaning(pieces[|pieces| - 1], size)
  }

  predicate InBounds(r: Range, size: int) {
    0 <= r.start <= r.end < size
  }

  lemma {:induction false} MeaningsInBounds(pieces: seq<string>, size: int)
    requires forall i :: 0 <= i < |pieces| ==> '-' in pieces[i]
    ensures forall r :: r in Meanings(pieces, size) ==> InBounds(r, size)
  {
    if pieces != [] {
      MeaningsInBounds(pieces[..|pieces| - 1], size);
    }
  }

  /** The part of the header after the first equals sign, cut at commas. */
  function Pieces(header: string): seq<string>
    requires '=' in header
  {
    Split(header[Index(header, '=') + 1..], ',')
  }

  /** Every piece holds a dash. `Parse` indexes what follows it without looking. */
  predicate Dashed(header: string) {
    '=' in header ==> forall i :: 0 <= i < |Pieces(header)| ==> '-' in Pieces(header)[i]
  }

  /** One turn of the loop: the range of one piece, if it is one in the file. */
  method ParsePiece(value: string, size: int) returns (found: seq<Range>)
    requires '-' in value
    ensures found == PieceMeaning(value, size)
  {
    var r := Split(value, '-');
    var s, e := ParseInt(r[0]), ParseInt(r[1]);
    if s.NotANumber? && e.NotANumber? {
      return [];
    }
    var start := if s.Number? then s.value else 0;
    var end := if e.Number? then e.value else 0;
    if s.NotANumber? {
      start := size - end;
      end := size - 1;
    } else if e.NotANumber? {
      end := size - 1;
    }
    if end >= size {
      end := size - 1;
    }
    found := if start > end || start < 0 then [] else [Range(start, end)];
  }

  method ParsePieces(arr: seq<string>, size: int) returns (panics: bool, ranges: seq<Range>)
    ensures panics <==> exists i :: 0 <= i < |arr| && '-' !in arr[i]
    ensures !panics ==> ranges == Meanings(arr, size)
  {
    hide PieceMeaning;
    panics, ranges := false, [];
    for i := 0 to |arr|
      invariant forall j :: 0 <= j < i ==> '-' in arr[j]
      invariant ranges == Meanings(arr[..i], size)
    {
      assert arr[..i + 1][..i] == arr[..i];
      if |Split(arr[i], '-')| < 2 {
        return true, [];
      }
      var found := ParsePiece(arr[i], size);
      ranges := ranges + found;
    }
    assert arr[..|arr|] == arr;
  }

  /** The ranges the header asks for, in its order, without those that lie outside the file. */
  method Parse(header: string, size: int) returns (r: ParseResult)
    ensures r.Invalid? <==> '=' !in header
    ensures r.OutOfRange? <==> !Dashed(header)
    ensures r.NoOverlap? ==> '=' in header && Dashed(header) && Meanings(Pieces(header), size) == []
    ensures r.Ranges? ==> '=' in header && Dashed(header) && r.ranges == Meanings(Pieces(header), size) != []
    ensures r.Ranges? ==> forall i :: 0 <= i < |r.ranges| ==> InBounds(r.ranges[i], size)
  {
    var index := Index(header, '=');
    if index == |header| {
      return Invalid;
    }
    var arr := Split(header[index + 1..], ',');
    assert arr == Pieces(header);
    var panics, ranges := ParsePieces(arr, size);
    if panics {
      return OutOfRange;
    }
    MeaningsInBounds(arr, size);
    if |ranges| == 0 {
      return NoOverlap;
    }
    r := Ranges(ranges);
  }

  // What RFC 9110 says, section 14.1.2.

  /** A range-spec: from a byte on, up to another if it is given, or the last bytes of the file. */
  datatype RangeSpec = From(first: nat, last: Option<nat>) | Suffix(length: nat)

  function Decimal(n: nat): string {
    var digit := [(n % 10 + '0' as int) as char];
    if n < 10 then digit else Decimal(n / 10) + digit
  }

  function Text(spec: RangeSpec): string {
    match spec
    case From(first, last) => Decimal(first) + "-" + (if last.Some? then Decimal(last.value) else "")
    case Suffix(length) => "-" + Decimal(length)
  }

  /** The bytes of the file it selects. A suffix longer than the file selects all of it. */
  function Selected(spec: RangeSpec, size: nat): seq<Range> {
    match spec
    case From(first, last) =>
      if first >= size || (last.Some? && last.value < first) then []
      else [Range(first, if last.Some? && last.value < size then last.value else size - 1)]
    case Suffix(length) =>
      if length == 0 || size == 0 then [] else [Range(if length < size then size - length else 0, size - 1)]
  }

  const INT64_LIMIT := 0x8000_0000_0000_0000

  /** What is made of a number: none if it takes more than 64 bits. */
  function Parsed(n: nat): Number {
    if n < INT64_LIMIT then Number(n) else NotANumber
  }

  function Before(spec: RangeSpec): Number {
    if spec.From? then Parsed(spec.first) else NotANumber
  }

  function After(spec: RangeSpec): Number {
    match spec
    case From(_, last) => if last.Some? then Parsed(last.value) else NotANumber
    case Suffix(length) => Parsed(length)
  }

  lemma TextMeaning(spec: RangeSpec, size: nat)
    ensures '-' in Text(spec)
    ensures PieceMeaning(Text(spec), size) == Meaning(Before(spec), After(spec), size)
  {
    match spec
    case From(first, last) =>
      var end := if last.Some? then Decimal(last.value) else "";
      ParseDecimal(first);
      if last.Some? {
        ParseDecimal(last.value);
      }
      SplitAtDash(Decimal(first), end);
    case Suffix(length) =>
      ParseDecimal(length);
      SplitAtDash("", Decimal(length));
      assert "" + "-" + Decimal(length) == Text(spec);
  }

  /** A first byte that takes more than 64 bits counts as none, and the last byte after it as the length of a suffix. */
  predicate ReadAsSuffix(spec: RangeSpec, size: nat) {
    spec.From? && spec.first >= INT64_LIMIT && spec.last.Some? && 1 <= spec.last.value <= size
  }

  /**
   The function gives a lone range-spec its meaning if and only if it is no suffix longer than the file, and no range
   from a byte past 64 bits on that is read as a suffix.
   */
  lemma MeaningIsSelection(spec: RangeSpec, size: nat)
    requires 0 < size < INT64_LIMIT
    ensures '-' in Text(spec)
    ensures PieceMeaning(Text(spec), size) == Selected(spec, size)
            <==> !(spec.Suffix? && spec.length > size) && !ReadAsSuffix(spec, size)
    ensures spec.Suffix? && spec.length > size ==> PieceMeaning(Text(spec), size) == []
    ensures ReadAsSuffix(spec, size) ==>
      Selected(spec, size) == [] && PieceMeaning(Text(spec), size) == Selected(Suffix(spec.last.value), size)
  {
    TextMeaning(spec, size);
  }

  /** A blank before the first byte, as after a comma, makes it no number: what follows the dash is read as a suffix. */
  lemma BlankInFront(spec: RangeSpec, size: nat)
    ensures '-' in " " + Text(spec)
    ensures PieceMeaning(" " + Text(spec), size) == Meaning(NotANumber, After(spec), size)
  {
    var front := if spec.From? then Decimal(spec.first) else "";
    var end := match spec
      case From(_, last) => if last.Some? then Decimal(last.value) else ""
      case Suffix(length) => Decimal(length);
    assert " " + Text(spec) == " " + front + "-" + end;
    if spec.From? {
      ParseDecimal(spec.first);
    }
    match spec {
      case From(_, Some(last)) => ParseDecimal(last);
      case From(_, None) =>
      case Suffix(length) => ParseDecimal(length);
    }
    NoDigits(" ", front);
    SplitAtDash(" " + front, end);
  }

  lemma {:induction false} NoDigits(a: string, b: string)
    requires a != "" && !('0' <= a[|a| - 1] <= '9')
    ensures Digits(a + b) == NotANumber
    decreases |b|
  {
    if b == "" {
      assert a + b == a;
    } else {
      NoDigits(a, b[..|b| - 1]);
      assert (a + b)[..|a + b| - 1] == a + b[..|b| - 1];
    }
  }

  lemma {:induction false} IndexAfter(a: string, b: string, c: char)
    requires c !in a && b != "" && b[0] == c
    ensures Index(a + b, c) == |a|
  {
    if a != "" {
      IndexAfter(a[1..], b, c);
      assert (a + b)[1..] == a[1..] + b;
    } else {
      assert a + b == b;
    }
  }

  lemma SplitAtDash(a: string, b: string)
    requires '-' !in a && '-' !in b
    ensures Split(a + "-" + b, '-') == [a, b]
  {
    SplitFirst(a, b, '-');
    SplitWhole(b, '-');
  }

  lemma {:induction false} DigitsOfDecimal(n: nat)
    ensures Digits(Decimal(n)) == Number(n) && Decimal(n) != ""
    ensures forall i :: 0 <= i < |Decimal(n)| ==> '0' <= Decimal(n)[i] <= '9'
  {
    var s := Decimal(n);
    if n >= 10 {
      DigitsOfDecimal(n / 10);
      assert s[..|s| - 1] == Decimal(n / 10);
    }
  }

  lemma ParseDecimal(n: nat)
    ensures ParseInt(Decimal(n)) == Parsed(n) && '-' !in Decimal(n)
  {
    DigitsOfDecimal(n);
  }

  /** A sign in front is allowed, and so are numbers down to -2^63. */
  lemma SignedDecimal(n: nat)
    ensures ParseInt("+" + Decimal(n)) == Parsed(n)
    ensures ParseInt("-" + Decimal(n)) == if n <= INT64_LIMIT then Number(0 - n) else NotANumber
  {
    DigitsOfDecimal(n);
    assert ("+" + Decimal(n))[1..] == Decimal(n) && ("-" + Decimal(n))[1..] == Decimal(n);
  }

  /** Asked for the last 10 bytes of a file of 5, the function finds no range where there is one. */
  lemma LongSuffixIsDropped()
    ensures var header := "bytes=-10";
            '=' in header && Dashed(header) && Pieces(header) == [Text(Suffix(10))]
            && Meanings(Pieces(header), 5) == [] && Selected(Suffix(10), 5) == [Range(0, 4)]
  {
    hide Index, Split, PieceMeaning;
    var header := "bytes=-10";
    IndexAfter("bytes", "=-10", '=');
    assert header == "bytes" + "=-10" && header[5] == '=' && header[5 + 1..] == "-10";
    assert Decimal(1) == "1" && Decimal(10) == Decimal(1) + "0" && Text(Suffix(10)) == "-10";
    SplitWhole("-10", ',');
    assert Pieces(header) == ["-10"] && "-10"[0] == '-';
    MeaningIsSelection(Suffix(10), 5);
    assert Meanings(["-10"][..0], 5) == [];
  }

  /** Asked for the bytes from 2^63 up to 5, of which there are none, the function finds the last five of ten. */
  lemma HugeFirstIsSuffix()
    ensures var spec := From(9223372036854775808, Some(5));
            '-' in Text(spec) && PieceMeaning(Text(spec), 10) == [Range(5, 9)] && Selected(spec, 10) == []
  {
    MeaningIsSelection(From(9223372036854775808, Some(5)), 10);
  }

  // Several of them.

  /** The ranges of a list of pieces: those of each piece, in the order of the pieces. */
  lemma {:induction false} MeaningsInOrder(pieces: seq<string>, size: int)
    requires forall i :: 0 <= i < |pieces| ==> '-' in pieces[i]
    ensures Meanings(pieces, size)
            == Flatten(seq(|pieces|, i requires 0 <= i < |pieces| => PieceMeaning(pieces[i], size)))
  {
    hide PieceMeaning;
    var all := seq(|pieces|, i requires 0 <= i < |pieces| => PieceMeaning(pieces[i], size));
    if pieces != [] {
      var k := |pieces| - 1;
      MeaningsInOrder(pieces[..k], size);
      var front := seq(k, i requires 0 <= i < k => PieceMeaning(pieces[..k][i], size));
      assert all == front + [PieceMeaning(pieces[k], size)];
      FlattenSnoc(front, PieceMeaning(pieces[k], size));
    }
  }

  function Texts(specs: seq<RangeSpec>): seq<string> {
    seq(|specs|, i requires 0 <= i < |specs| => Text(specs[i]))
  }

  function Listed(specs: seq<RangeSpec>): string {
    if specs == [] then "" else if |specs| == 1 then Text(specs[0]) else Text(specs[0]) + "," + Listed(specs[1..])
  }

  lemma NoComma(spec: RangeSpec)
    ensures ',' !in Text(spec)
  {
    match spec
    case From(first, last) =>
      DigitsOfDecimal(first);
      if last.Some? {
        DigitsOfDecimal(last.value);
      }
    case Suffix(length) => DigitsOfDecimal(length);
  }

  lemma {:induction false} SplitListed(specs: seq<RangeSpec>)
    requires specs != []
    ensures Split(Listed(specs), ',') == Texts(specs)
  {
    hide Text, Split;
    NoComma(specs[0]);
    if |specs| == 1 {
      SplitWhole(Text(specs[0]), ',');
    } else {
      SplitListed(specs[1..]);
      SplitFirst(Text(specs[0]), Listed(specs[1..]), ',');
      assert Texts(specs) == [Text(specs[0])] + Texts(specs[1..]);
    }
  }

  /**
   A list of range-specs, none of which is misread by itself: the ranges are those that they select, in their order, and
   there is no overlap if none of them selects one.
   */
  method ParseSpecs(specs: seq<RangeSpec>, size: nat) returns (r: ParseResult)
    requires specs != [] && 0 < size < INT64_LIMIT
    requires forall i :: 0 <= i < |specs| ==>
               !(specs[i].Suffix? && specs[i].length > size) && !ReadAsSuffix(specs[i], size)
    ensures var selected := Flatten(seq(|specs|, i requires 0 <= i < |specs| => Selected(specs[i], size)));
            r == if selected == [] then NoOverlap else Ranges(selected)
  {
    var header := "bytes=" + Listed(specs);
    HeaderMeans(header, specs, size);
    hide Split, Index, Meanings, Pieces, Dashed, Selected;
    r := Parse(header, size);
  }

  lemma HeaderMeans(header: string, specs: seq<RangeSpec>, size: nat)
    requires specs != [] && 0 < size < INT64_LIMIT && header == "bytes=" + Listed(specs)
    requires forall i :: 0 <= i < |specs| ==>
               !(specs[i].Suffix? && specs[i].length > size) && !ReadAsSuffix(specs[i], size)
    ensures '=' in header && Dashed(header)
    ensures Meanings(Pieces(header), size)
            == Flatten(seq(|specs|, i requires 0 <= i < |specs| => Selected(specs[i], size)))
  {
    hide Split, Index, PieceMeaning, Selected, Meanings, Text, Listed;
    IndexAfter("bytes", "=" + Listed(specs), '=');
    assert header == "bytes" + ("=" + Listed(specs)) && header[5] == '=' && header[6..] == Listed(specs);
    SplitListed(specs);
    forall i | 0 <= i < |specs|
      ensures '-' in Texts(specs)[i] && PieceMeaning(Texts(specs)[i], size) == Selected(specs[i], size)
    {
      MeaningIsSelection(specs[i], size);
    }
    MeaningsInOrder(Texts(specs), size);
    assert seq(|specs|, i requires 0 <= i < |specs| => Selected(specs[i], size))
        == seq(|specs|, i requires 0 <= i < |specs| => PieceMeaning(Texts(specs)[i], size));
  }

  /** What a range-spec selects, in numbers. */
  lemma SelectedIs(first: nat, last: nat, size: nat)
    ensures Selected(From(first, None), size) == if first < size then [Range(first, size - 1)] else []
    ensures first <= last < size ==> Selected(From(first, Some(last)), size) == [Range(first, last)]
    ensures first < size <= last ==> Selected(From(first, Some(last)), size) == [Range(first, size - 1)]
    ensures first >= size || last < first ==> Selected(From(first, Some(last)), size) == []
    ensures 0 < last < size ==> Selected(Suffix(last), size) == [Range(size - last, size - 1)]
    ensures 0 < size <= last ==> Selected(Suffix(last), size) == [Range(0, size - 1)]
    ensures last == 0 || size == 0 ==> Selected(Suffix(last), size) == []
  {
  }

  const OK := 200
  const PARTIAL := 206
  const BAD_REQUEST := 400
  const NOT_SATISFIABLE := 416

  /** No reply at all, or a status and the bytes of the file that are sent after it. */
  datatype Reply = NoReply | Reply(status: int, sent: seq<Byte>)

  /**
   Serves a file: all of it or the one range that the header asks for, or nothing of it to a HEAD request. The bytes are
   exactly those or, where fetches may fail, a prefix of them. A header that asks for none or for several ranges gets no
   byte of the file, and one with a piece without a dash no reply.
   */
  method Serve(header: string, file: StoredFile, head: bool, concurrency: nat, buffers: nat, reliable: bool)
    returns (reply: Reply)
    requires file.Valid() && concurrency >= 1 && (reliable || file.RejectsCuts())
    ensures var size := |file.Content()|;
            if size == 0 then reply == Reply(200, [])
            else if header != "" && '=' !in header then reply == Reply(400, [])
            else if header != "" && !Dashed(header) then reply == NoReply
            else
              var asked := if header == "" then [Range(0, size - 1)] else Meanings(Pieces(header), size);
              if |asked| != 1 then reply == Reply(416, [])
              else
                && InBounds(asked[0], size) && reply.Reply? && reply.status == (if header == "" then 200 else 206)
                && (if head then reply.sent == []
                    else
                      var wanted := file.Content()[asked[0].start..asked[0].end + 1];
                      reply.sent <= wanted && (reliable ==> reply.sent == wanted))
  {
    hide StoredFile.Valid, StoredFile.Content, StoredFile.RejectsCuts, Pieces, Meanings, Dashed, Split, Index, Digits;
    var size := |file.Content()|;
    if size == 0 {
      return Reply(OK, []);
    }
    var start, end, status := 0, size - 1, OK;
    if header != "" {
      var parsed := Parse(header, size);
      match parsed {
        case OutOfRange => return NoReply;
        case NoOverlap => return Reply(NOT_SATISFIABLE, []);
        case Invalid => return Reply(BAD_REQUEST, []);
        case Ranges(ranges) =>
          if |ranges| > 1 {
            return Reply(NOT_SATISFIABLE, []);
          }
          start, end, status := ranges[0].start, ranges[0].end, PARTIAL;
      }
    }
    assert file.Content()[0..size] == file.Content();
    if head {
      return Reply(status, []);
    }
    var sent, err := ReadRange(file, start, end, concurrency, buffers, reliable);
    reply := Reply(status, sent);
  }
}
