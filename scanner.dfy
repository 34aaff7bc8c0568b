/**
 * The region scanner (src/scanner.rs): each line of /proc/<pid>/maps starts
 * with a `start-end` pair of hexadecimal addresses, then optional fields
 * (permissions, offset, device, inode, pathname) separated by whitespace.
 * The file is read line by line; the lines are given here as strings.
 */
module Scanner {
  import opened Words
  import opened Wrappers

  /** `MemoryRegion`: one mapping of the process. */
  datatype MemoryRegion = MemoryRegion(start: u64, end: u64, perms: string, pathname: string)

  // ---------------------------------------------------------------------
  // `str::split_whitespace`: the maximal runs of non-whitespace characters.

  /** The ASCII whitespace characters: tab, line feed, vertical tab, form feed, carriage return, space. */
  predicate IsWhitespace(c: char)
  {
    c == ' ' || '\t' <= c <= '\r'
  }

  /** s holds no whitespace. */
  predicate NoWhitespace(s: string)
  {
    forall i :: 0 <= i < |s| ==> !IsWhitespace(s[i])
  }

  /** The length of the longest prefix of s free of whitespace. */
  function WordLength(s: string): (n: nat)
    ensures n <= |s|
    ensures NoWhitespace(s[..n])
    ensures n < |s| ==> IsWhitespace(s[n])
  {
    if s == [] || IsWhitespace(s[0]) then 0
    else
      var n := 1 + WordLength(s[1..]);
      assert s[..n] == [s[0]] + s[1..][..n - 1];
      n
  }

  /** `line.split_whitespace().collect()`: the fields of a line, in order. */
  function SplitWhitespace(s: string): (fields: seq<string>)
    ensures forall k :: 0 <= k < |fields| ==> fields[k] != [] && NoWhitespace(fields[k])
    decreases |s|
  {
    if s == [] then []
    else if IsWhitespace(s[0]) then SplitWhitespace(s[1..])
    else
      var n := WordLength(s);
      [s[..n]] + SplitWhitespace(s[n..])
  }

  /** s is made only of whitespace (possibly none). */
  predicate IsBlank(s: string)
  {
    forall i :: 0 <= i < |s| ==> IsWhitespace(s[i])
  }

  /** A line made only of whitespace has no fields. */
  lemma {:induction false} BlankHasNoFields(s: string)
    requires IsBlank(s)
    ensures SplitWhitespace(s) == []
  {
    if s != [] {
      BlankHasNoFields(s[1..]);
    }
  }

  /** Whitespace in front of a string adds no field. */
  lemma {:induction false} LeadingBlank(ws: string, s: string)
    requires IsBlank(ws)
    ensures SplitWhitespace(ws + s) == SplitWhitespace(s)
  {
    if ws != [] {
      assert (ws + s)[0] == ws[0] && (ws + s)[1..] == ws[1..] + s;
      assert IsWhitespace(ws[0]) && IsBlank(ws[1..]);
      LeadingBlank(ws[1..], s);
    } else {
      assert ws + s == s;
    }
  }

  /** A word followed by whitespace is the first field; the rest are the fields of what follows. */
  lemma {:induction false} SplitWhitespaceWord(word: string, c: char, rest: string)
    requires word != [] && NoWhitespace(word) && IsWhitespace(c)
    ensures SplitWhitespace(word + [c] + rest) == [word] + SplitWhitespace(rest)
  {
    var s := word + [c] + rest;
    WordOfPrefix(word, c, rest);
    assert s[..|word|] == word;
    assert s[|word|..] == [c] + rest;
    assert ([c] + rest)[1..] == rest;
  }

  /** The first field of a word followed by whitespace is that word. */
  lemma {:induction false} WordOfPrefix(word: string, c: char, rest: string)
    requires NoWhitespace(word) && IsWhitespace(c)
    ensures WordLength(word + [c] + rest) == |word|
  {
    if word != [] {
      assert (word + [c] + rest)[1..] == word[1..] + [c] + rest;
      WordOfPrefix(word[1..], c, rest);
    }
  }

  /** Words joined by single spaces. */
  function JoinWords(words: seq<string>): string
  {
    if words == [] then ""
    else if |words| == 1 then words[0]
    else words[0] + " " + JoinWords(words[1..])
  }

  /** Words that can stand as fields: non-empty and free of whitespace. */
  predicate AreWords(words: seq<string>)
  {
    forall k :: 0 <= k < |words| ==> words[k] != [] && NoWhitespace(words[k])
  }

  /** A lone word is a single field. */
  lemma SingleWord(word: string)
    requires word != [] && NoWhitespace(word)
    ensures SplitWhitespace(word) == [word]
  {
    assert WordLength(word) == |word|;
    assert word[..|word|] == word && word[|word|..] == [];
  }

  /** Splitting words joined by spaces gives back the words. */
  lemma {:induction false} SplitJoinWords(words: seq<string>)
    requires AreWords(words)
    ensures SplitWhitespace(JoinWords(words)) == words
  {
    if |words| == 1 {
      SingleWord(words[0]);
    } else if |words| > 1 {
      SplitJoinWords(words[1..]);
      assert words[0] + " " + JoinWords(words[1..]) == words[0] + [' '] + JoinWords(words[1..]);
      SplitWhitespaceWord(words[0], ' ', JoinWords(words[1..]));
      assert [words[0]] + words[1..] == words;
    }
  }

  /**
   * Words each followed by its padding, as the columns of a maps line are:
   * pads[k] follows words[k]; every pad is whitespace, and every pad but the
   * last (trailing whitespace, possibly none) is at least one character.
   */
  function JoinPadded(words: seq<string>, pads: seq<string>): string
    requires |pads| == |words|
  {
    if words == [] then "" else words[0] + pads[0] + JoinPadded(words[1..], pads[1..])
  }

  /** Paddings that can separate the given number of words. */
  predicate ArePads(pads: seq<string>)
  {
    && (forall k :: 0 <= k < |pads| ==> IsBlank(pads[k]))
    && (forall k :: 0 <= k < |pads| - 1 ==> pads[k] != [])
  }

  /** Splitting on whitespace gives back the words, whatever whitespace pads them. */
  lemma {:induction false} SplitJoinPadded(words: seq<string>, pads: seq<string>)
    requires AreWords(words) && |pads| == |words| && ArePads(pads)
    ensures SplitWhitespace(JoinPadded(words, pads)) == words
  {
    if words != [] {
      var w, p := words[0], pads[0];
      var rest := JoinPadded(words[1..], pads[1..]);
      assert AreWords(words[1..]) && ArePads(pads[1..]);
      SplitJoinPadded(words[1..], pads[1..]);
      if p == [] {
        assert |words| == 1 && rest == "";
        assert w + p + rest == w;
        SingleWord(w);
      } else {
        assert w + p + rest == w + [p[0]] + (p[1..] + rest);
        SplitWhitespaceWord(w, p[0], p[1..] + rest);
        LeadingBlank(p[1..], rest);
      }
      assert [w] + words[1..] == words;
    }
  }

  // ---------------------------------------------------------------------
  // `str::split(sep)`: the pieces between the separators, empty ones kept.

  /** `s.split(sep).collect()`. */
  function Split(s: string, sep: char): (parts: seq<string>)
    ensures |parts| >= 1
    ensures forall k :: 0 <= k < |parts| ==> sep !in parts[k]
  {
    if s == [] then [[]]
    else
      var rest := Split(s[1..], sep);
      if s[0] == sep then [[]] + rest
      else [[s[0]] + rest[0]] + rest[1..]
  }

  /** The pieces joined back with the separator. */
  function Join(parts: seq<string>, sep: char): string
    requires |parts| >= 1
  {
    if |parts| == 1 then parts[0] else parts[0] + [sep] + Join(parts[1..], sep)
  }

  /** Splitting loses nothing: joining the pieces gives back the string. */
  lemma {:induction false} JoinSplit(s: string, sep: char)
    ensures Join(Split(s, sep), sep) == s
  {
    if s != [] {
      var rest := Split(s[1..], sep);
      JoinSplit(s[1..], sep);
      if s[0] == sep {
        assert ([[]] + rest)[1..] == rest;
      } else {
        var parts := [[s[0]] + rest[0]] + rest[1..];
        if |rest| > 1 {
          assert parts[1..] == rest[1..];
          assert Join(rest, sep) == rest[0] + [sep] + Join(rest[1..], sep);
        }
      }
    }
  }

  /** The number of pieces is one more than the number of separators. */
  lemma {:induction false} SplitCount(s: string, sep: char)
    ensures |Split(s, sep)| == 1 + multiset(s)[sep]
  {
    if s != [] {
      SplitCount(s[1..], sep);
      assert s == [s[0]] + s[1..];
      assert multiset(s) == multiset{s[0]} + multiset(s[1..]);
    }
  }

  /** Splitting a string with exactly one separator gives the two sides. */
  lemma {:induction false} SplitAtOnlySeparator(a: string, sep: char, b: string)
    requires sep !in a && sep !in b
    ensures Split(a + [sep] + b, sep) == [a, b]
  {
    if a == [] {
      assert ([sep] + b)[1..] == b;
      SplitNoSeparator(b, sep);
    } else {
      assert (a + [sep] + b)[1..] == a[1..] + [sep] + b;
      SplitAtOnlySeparator(a[1..], sep, b);
      assert [a[0]] + a[1..] == a;
    }
  }

  /** A string without the separator is a single piece. */
  lemma {:induction false} SplitNoSeparator(s: string, sep: char)
    requires sep !in s
    ensures Split(s, sep) == [s]
  {
    if s != [] {
      SplitNoSeparator(s[1..], sep);
      assert [s[0]] + s[1..] == s;
    }
  }

  // ---------------------------------------------------------------------
  // `u64::from_str_radix(s, 16)`: an optional leading `+`, then one or more
  // hexadecimal digits of either case; it fails on anything else and when
  // the value does not fit in 64 bits.

  /** The value of a hexadecimal digit of either case. */
  function HexDigitValue(c: char): (v: Option<nat>)
    ensures v.Some? ==> v.value < 16
  {
    if '0' <= c <= '9' then Some(c as int - '0' as int)
    else if 'a' <= c <= 'f' then Some(c as int - 'a' as int + 10)
    else if 'A' <= c <= 'F' then Some(c as int - 'A' as int + 10)
    else None
  }

  predicate IsHexDigit(c: char)
  {
    HexDigitValue(c).Some?
  }

  predicate AllHexDigits(digits: string)
  {
    forall i :: 0 <= i < |digits| ==> IsHexDigit(digits[i])
  }

  /** The value of a string of hexadecimal digits, most significant first, as an unbounded number. */
  function HexValue(digits: string): nat
    requires AllHexDigits(digits)
  {
    if digits == [] then 0
    else
      var n := |digits| - 1;
      assert IsHexDigit(digits[n]);
      HexValue(digits[..n]) * 16 + HexDigitValue(digits[n]).value
  }

  /** `u64::from_str_radix(s, 16).ok()`. */
  function ParseHex(s: string): (r: Option<u64>)
    ensures r.Some? ==> s != [] && s != "+"
  {
    if s == [] || s == "+" then None
    else
      var digits := if s[0] == '+' then s[1..] else s;
      if AllHexDigits(digits) then
        var v := HexValue(digits);
        if v < TWO_64 then Some(v) else None
      else None
  }

  /** The lower-case digit of a value below 16. */
  function HexDigit(v: nat): (c: char)
    requires v < 16
    ensures HexDigitValue(c) == Some(v)
  {
    if v < 10 then ('0' as int + v) as char else ('a' as int + v - 10) as char
  }

  /** A number in lower-case hexadecimal, without leading zeros (`format!("{:x}", n)`). */
  function Hex(n: nat): (s: string)
    ensures s != [] && s[0] != '+' && s[0] != '-'
    ensures AllHexDigits(s)
  {
    if n < 16 then [HexDigit(n)] else Hex(n / 16) + [HexDigit(n % 16)]
  }

  /** The digits of a number read back give the number. */
  lemma {:induction false} HexValueOfHex(n: nat)
    ensures HexValue(Hex(n)) == n
  {
    if n >= 16 {
      HexValueOfHex(n / 16);
      var s := Hex(n);
      assert s[..|s| - 1] == Hex(n / 16);
    }
  }

  /** Parsing a number printed in hexadecimal gives it back exactly when it fits in 64 bits. */
  lemma ParseHexRoundTrip(n: nat)
    ensures ParseHex(Hex(n)) == if n < TWO_64 then Some(n) else None
  {
    HexValueOfHex(n);
  }

  /**
   * Any non-empty run of hexadecimal digits, of either case and with any
   * number of leading zeros, parses to its value when that fits in 64 bits.
   */
  lemma ParseHexDigits(digits: string)
    requires digits != [] && AllHexDigits(digits)
    ensures ParseHex(digits) == if HexValue(digits) < TWO_64 then Some(HexValue(digits)) else None
  {
    assert IsHexDigit(digits[0]);
  }

  /** An empty string, a lone `+` or a character that is not a hexadecimal digit is rejected. */
  lemma ParseHexRejectsMalformed(s: string)
    requires || s == []
             || s == "+"
             || (exists i :: 1 <= i < |s| && !IsHexDigit(s[i]))
             || (|s| > 0 && s[0] != '+' && !IsHexDigit(s[0]))
    ensures ParseHex(s) == None
  {
    if s != [] && s != "+" {
      var digits := if s[0] == '+' then s[1..] else s;
      if exists i :: 1 <= i < |s| && !IsHexDigit(s[i]) {
        var i :| 1 <= i < |s| && !IsHexDigit(s[i]);
        assert !IsHexDigit(digits[if s[0] == '+' then i - 1 else i]);
      } else {
        assert s[0] != '+' && digits == s;
        assert !IsHexDigit(digits[0]);
      }
    }
  }

  /** A leading `+` is accepted and ignored. */
  lemma ParseHexPlusSign(digits: string)
    requires digits != [] && digits[0] != '+'
    ensures ParseHex(['+'] + digits) == ParseHex(digits)
  {
    var s := ['+'] + digits;
    assert s != [] && s != "+" && s[0] == '+' && s[1..] == digits;
    assert digits != "+";
  }

  // ---------------------------------------------------------------------
  // `parse_map_line`

  /**
   * `parse_map_line`: the first field must be two hexadecimal numbers joined
   * by one `-`; permissions are the second field and the pathname the sixth,
   * each empty when absent. Any other line gives `None`.
   */
  function ParseMapLine(line: string): (r: Option<MemoryRegion>)
    ensures r.Some? ==> SplitWhitespace(line) != []
  {
    var parts := SplitWhitespace(line);
    if |parts| < 1 then None
    else
      var rangeParts := Split(parts[0], '-');
      if |rangeParts| != 2 then None
      else
        match ParseHex(rangeParts[0])
        case None => None
        case Some(start) =>
          match ParseHex(rangeParts[1])
          case None => None
          case Some(end) =>
            var perms := if |parts| > 1 then parts[1] else "";
            var pathname := if |parts| > 5 then parts[5] else "";
            Some(MemoryRegion(start, end, perms, pathname))
  }

  /** An empty or blank line gives `None`. */
  lemma BlankLineRejected(line: string)
    requires IsBlank(line)
    ensures ParseMapLine(line) == None
  {
    BlankHasNoFields(line);
  }

  /** A first field without exactly one `-` gives `None`. */
  lemma BadRangeRejected(line: string)
    requires SplitWhitespace(line) != []
    requires multiset(SplitWhitespace(line)[0])['-'] != 1
    ensures ParseMapLine(line) == None
  {
    SplitCount(SplitWhitespace(line)[0], '-');
  }

  /** A side of the range that is not a 64-bit hexadecimal number gives `None`. */
  lemma BadAddressRejected(line: string, a: string, b: string)
    requires SplitWhitespace(line) != [] && SplitWhitespace(line)[0] == a + "-" + b
    requires ParseHex(a) == None || ParseHex(b) == None
    ensures ParseMapLine(line) == None
  {
    assert a + "-" + b == a + ['-'] + b;
    SplitSides(a, b);
  }

  /** Splitting `a-b` on `-` gives a and b when neither holds a `-`, and more pieces otherwise. */
  lemma SplitSides(a: string, b: string)
    ensures |Split(a + "-" + b, '-')| == 2 ==> Split(a + "-" + b, '-') == [a, b]
  {
    assert a + "-" + b == a + ['-'] + b;
    SplitCount(a + "-" + b, '-');
    SplitCount(a, '-');
    SplitCount(b, '-');
    assert multiset(a + "-" + b) == multiset(a) + multiset{'-'} + multiset(b);
    if |Split(a + "-" + b, '-')| == 2 {
      SplitAtOnlySeparator(a, '-', b);
    }
  }

  /** A hexadecimal address as the listing may print it: non-empty, digits only, below 2^64. */
  predicate IsHexAddress(a: string)
  {
    a != [] && AllHexDigits(a) && HexValue(a) < TWO_64
  }

  /** Hexadecimal digits hold neither `-` nor whitespace. */
  lemma HexDigitsPlain(a: string)
    requires AllHexDigits(a)
    ensures '-' !in a && NoWhitespace(a)
  {
    assert !IsHexDigit('-');
    assert forall i :: 0 <= i < |a| ==> a[i] != '-' && IsHexDigit(a[i]);
  }

  /** The first field `a-b` of two hexadecimal addresses splits into them and each parses to its value. */
  lemma RangeFieldParses(a: string, b: string)
    requires IsHexAddress(a) && IsHexAddress(b)
    ensures var range := a + "-" + b;
            && range != [] && NoWhitespace(range)
            && Split(range, '-') == [a, b]
            && ParseHex(a) == Some(HexValue(a))
            && ParseHex(b) == Some(HexValue(b))
  {
    HexDigitsPlain(a);
    HexDigitsPlain(b);
    var range := a + "-" + b;
    assert range == a + ['-'] + b;
    assert forall i :: 0 <= i < |range| ==> range[i] == '-' || IsHexDigit(range[i]);
    SplitAtOnlySeparator(a, '-', b);
    ParseHexDigits(a);
    ParseHexDigits(b);
  }

  /**
   * A line `a-b rest` whose first field is two hexadecimal addresses (either
   * case, leading zeros allowed) parses to exactly their values whatever
   * follows; start need not be below end.
   */
  lemma MapLineRoundTrip(a: string, b: string, rest: string)
    requires IsHexAddress(a) && IsHexAddress(b)
    ensures var r := ParseMapLine(a + "-" + b + " " + rest);
            && r.Some?
            && r.value.start == HexValue(a)
            && r.value.end == HexValue(b)
  {
    RangeFieldParses(a, b);
    var range := a + "-" + b;
    assert a + "-" + b + " " + rest == range + [' '] + rest;
    SplitWhitespaceWord(range, ' ', rest);
  }

  /**
   * Of the fields after the range, permissions are the first and the pathname
   * the fifth; either is empty when the line is too short to hold it. The
   * columns may be padded with any whitespace, before, between and after.
   */
  lemma OptionalFields(lead: string, a: string, b: string, fields: seq<string>, pads: seq<string>)
    requires IsBlank(lead) && IsHexAddress(a) && IsHexAddress(b) && AreWords(fields)
    requires |pads| == |fields| + 1 && ArePads(pads)
    ensures var r := ParseMapLine(lead + JoinPadded([a + "-" + b] + fields, pads));
            && r.Some?
            && r.value.start == HexValue(a)
            && r.value.end == HexValue(b)
            && r.value.perms == (if |fields| >= 1 then fields[0] else "")
            && r.value.pathname == (if |fields| >= 5 then fields[4] else "")
  {
    RangeFieldParses(a, b);
    var words := [a + "-" + b] + fields;
    assert AreWords(words);
    LeadingBlank(lead, JoinPadded(words, pads));
    SplitJoinPadded(words, pads);
  }

  /** The addresses of the source's format comment are hexadecimal addresses with the values they show. */
  lemma ExampleAddresses()
    ensures IsHexAddress("00400000") && HexValue("00400000") == 0x400000
    ensures IsHexAddress("0040b000") && HexValue("0040b000") == 0x40b000
  {
    assert AllHexDigits("00400000") && AllHexDigits("0040b000");
    HexValuePrefixes("00400000", [0, 0, 0x4, 0x40, 0x400, 0x4000, 0x40000, 0x400000]);
    HexValuePrefixes("0040b000", [0, 0, 0x4, 0x40, 0x40b, 0x40b0, 0x40b00, 0x40b000]);
  }

  /** The fields of the line shown in the source's format comment. */
  const EXAMPLE_FIELDS: seq<string> :=
    ["00400000-0040b000", "r-xp", "00000000", "08:01", "123456", "/path/to/file"]

  /** The example's fields: a range of the two addresses, then five words. */
  lemma ExampleFields()
    ensures EXAMPLE_FIELDS == ["00400000" + "-" + "0040b000"] + EXAMPLE_FIELDS[1..]
    ensures AreWords(EXAMPLE_FIELDS[1..]) && |EXAMPLE_FIELDS[1..]| == 5
    ensures EXAMPLE_FIELDS[1..][0] == "r-xp" && EXAMPLE_FIELDS[1..][4] == "/path/to/file"
  {
    assert "00400000" + "-" + "0040b000" == "00400000-0040b000";
  }

  /** The line shown in the source's own format comment, zero-padded addresses and all. */
  lemma ExampleLineParses()
    ensures ParseMapLine(JoinWords(EXAMPLE_FIELDS)) == Some(MemoryRegion(0x400000, 0x40b000, "r-xp", "/path/to/file"))
  {
    ExampleAddresses();
    ExampleFields();
    RangeFieldParses("00400000", "0040b000");
    assert AreWords(EXAMPLE_FIELDS);
    SplitJoinWords(EXAMPLE_FIELDS);
  }

  /** The example's column padding as the kernel prints it: the pathname column aligned with spaces, a tab at the end. */
  const EXAMPLE_PADS: seq<string> := [" ", " ", " ", " ", "                          ", "\t"]

  /** The example line padded as in a real listing parses to the same region. */
  lemma PaddedExampleLineParses()
    ensures ParseMapLine(JoinPadded(EXAMPLE_FIELDS, EXAMPLE_PADS)) == Some(MemoryRegion(0x400000, 0x40b000, "r-xp", "/path/to/file"))
  {
    ExampleAddresses();
    ExampleFields();
    assert ArePads(EXAMPLE_PADS);
    OptionalFields("", "00400000", "0040b000", EXAMPLE_FIELDS[1..], EXAMPLE_PADS);
    assert "" + JoinPadded(EXAMPLE_FIELDS, EXAMPLE_PADS) == JoinPadded(EXAMPLE_FIELDS, EXAMPLE_PADS);
  }

  /**
   * Evaluating hexadecimal digits one at a time: when each value is the one
   * before times 16 plus the next digit, the last is the value of them all.
   */
  lemma {:induction false} HexValuePrefixes(digits: string, values: seq<nat>)
    requires AllHexDigits(digits) && |values| == |digits| > 0
    requires values[0] == HexDigitValue(digits[0]).value
    requires forall k :: 0 < k < |digits| ==> values[k] == values[k - 1] * 16 + HexDigitValue(digits[k]).value
    ensures HexValue(digits) == values[|values| - 1]
  {
    var n := |digits| - 1;
    if n == 0 {
      assert digits[..0] == [];
    } else {
      HexValuePrefixes(digits[..n], values[..n]);
    }
  }

  /** The parser does not demand that a region start below its end. */
  lemma ReversedRangeAccepted(start: u64, end: u64, rest: string)
    requires end < start
    ensures var r := ParseMapLine(Hex(start) + "-" + Hex(end) + " " + rest);
            r.Some? && r.value.start > r.value.end
  {
    HexValueOfHex(start);
    HexValueOfHex(end);
    MapLineRoundTrip(Hex(start), Hex(end), rest);
  }

  // ---------------------------------------------------------------------
  // `Scanner::get_maps`

  /** A line parser: `parse_map_line`, or any other. */
  type LineParser = string -> Option<MemoryRegion>

  /** What one line adds to the listing: its region, or nothing. */
  function Kept(line: string, parse: LineParser): seq<MemoryRegion>
  {
    if parse(line).Some? then [parse(line).value] else []
  }

  /** The regions of the lines `parse` accepts, in the order of the lines. */
  function ParsedRegions(lines: seq<string>, parse: LineParser): seq<MemoryRegion>
  {
    if lines == [] then []
    else
      var n := |lines| - 1;
      ParsedRegions(lines[..n], parse) + Kept(lines[n], parse)
  }

  /** The listing of two consecutive runs of lines is the listing of the first followed by that of the second. */
  lemma {:induction false} ParsedRegionsAppend(a: seq<string>, b: seq<string>, parse: LineParser)
    ensures ParsedRegions(a + b, parse) == ParsedRegions(a, parse) + ParsedRegions(b, parse)
  {
    if b != [] {
      var n := |b| - 1;
      var ab := a + b;
      assert ab[..|ab| - 1] == a + b[..n] && ab[|ab| - 1] == b[n];
      ParsedRegionsAppend(a, b[..n], parse);
    } else {
      assert a + b == a;
    }
  }

  /** Every region listed comes from a line, and there are no more regions than lines. */
  lemma {:induction false} ParsedRegionsFromLines(lines: seq<string>, parse: LineParser)
    ensures |ParsedRegions(lines, parse)| <= |lines|
    ensures forall k :: 0 <= k < |ParsedRegions(lines, parse)| ==>
              exists j :: 0 <= j < |lines| && parse(lines[j]) == Some(ParsedRegions(lines, parse)[k])
  {
    if lines != [] {
      var n := |lines| - 1;
      var init := lines[..n];
      ParsedRegionsFromLines(init, parse);
      var prev := ParsedRegions(init, parse);
      forall k | 0 <= k < |ParsedRegions(lines, parse)|
        ensures exists j :: 0 <= j < |lines| && parse(lines[j]) == Some(ParsedRegions(lines, parse)[k])
      {
        if k < |prev| {
          var j :| 0 <= j < n && parse(init[j]) == Some(prev[k]);
          assert lines[j] == init[j];
        } else {
          assert parse(lines[n]) == Some(ParsedRegions(lines, parse)[k]);
        }
      }
    }
  }

  /** When every line parses, the listing holds each line's region at the line's own position. */
  lemma {:induction false} AllLinesParsable(lines: seq<string>, parse: LineParser)
    requires forall j :: 0 <= j < |lines| ==> parse(lines[j]).Some?
    ensures |ParsedRegions(lines, parse)| == |lines|
    ensures forall j :: 0 <= j < |lines| ==> ParsedRegions(lines, parse)[j] == parse(lines[j]).value
  {
    if lines != [] {
      var n := |lines| - 1;
      var init := lines[..n];
      assert forall j :: 0 <= j < n ==> init[j] == lines[j];
      AllLinesParsable(init, parse);
      var prev := ParsedRegions(init, parse);
      assert ParsedRegions(lines, parse) == prev + [parse(lines[n]).value];
      forall j | 0 <= j < |lines|
        ensures ParsedRegions(lines, parse)[j] == parse(lines[j]).value
      {
        if j < n {
          assert ParsedRegions(lines, parse)[j] == prev[j] == parse(init[j]).value;
        }
      }
    }
  }

  /** When no line parses, the listing is empty. */
  lemma {:induction false} NoLineParsable(lines: seq<string>, parse: LineParser)
    requires forall j :: 0 <= j < |lines| ==> parse(lines[j]) == None
    ensures ParsedRegions(lines, parse) == []
  {
    if lines != [] {
      var n := |lines| - 1;
      assert forall j :: 0 <= j < n ==> lines[..n][j] == lines[j];
      NoLineParsable(lines[..n], parse);
    }
  }

  /**
   * `Scanner::get_maps` over the lines of the listing: keep the region of
   * every line that parses, in order, and drop the others.
   */
  method GetMaps(lines: seq<string>) returns (regions: seq<MemoryRegion>)
    ensures regions == ParsedRegions(lines, ParseMapLine)
  {
    regions := [];
    for i := 0 to |lines|
      invariant regions == ParsedRegions(lines[..i], ParseMapLine)
    {
      assert lines[..i + 1][..i] == lines[..i];
      var parsed := ParseMapLine(lines[i]);
      if parsed.Some? {
        regions := regions + [parsed.value];
      }
    }
    assert lines[..|lines|] == lines;
  }
}
