/** The AEDAT reader (source/aedat.hpp): the text header of a .dat file, the two raw event
    layouts (6-byte AEDAT 1.0 records of a DVS128, 8-byte AEDAT 2.0 records of a DAVIS), and
    the two loops that turn the rest of a stream into a filtered sequence of DVS events. */
module Aedat {
  import opened Support
  import opened Bytes

  type U8 = n: nat | n < 0x100
  type U16 = n: nat | n < 0x1_0000

  /** The header fields the reader recognises: file format version and sensor geometry. */
  datatype Header = Header(majorVersion: U8, minorVersion: U8, width: U16, height: U16)

  /** What read_header reports when it recognises nothing: AEDAT 2.0 on a 240 x 180 sensor. */
  const DefaultHeader := Header(2, 0, 240, 180)

  /** The value-initialised header the header lines are examined into. */
  const EmptyHeader := Header(0, 0, 0, 0)

  /** sepia::dvs_event: timestamp, pixel position and polarity. */
  datatype DvsEvent = DvsEvent(t: nat, x: nat, y: nat, isIncrease: bool)

  /** What bytes_to_davis_event returns for a record that is not a DVS event. */
  const Sentinel := DvsEvent(0, 0, 0, true)

  const Hash: Byte := 35
  const Bang: Byte := 33
  const DigitZero: Byte := 48

  /** std::isprint and std::isspace in the "C" locale; bytes from 0x80 up are neither. */
  predicate IsPrint(c: Byte) { 0x20 <= c <= 0x7E }
  predicate IsSpace(c: Byte) { 0x09 <= c <= 0x0D || c == 0x20 }

  /** The bytes of an ASCII string literal. */
  function Ascii(s: string): (b: seq<Byte>)
    ensures |b| == |s|
  {
    seq(|s|, i requires 0 <= i < |s| => (s[i] as int) % 256)
  }

  function HardwareInterface(): seq<Byte> { Ascii("HardwareInterface:") }
  function AEChip(): seq<Byte> { Ascii("AEChip:") }

  // ---------------------------------------------------------------------------------------
  // Header lines

  /** The header lines from `pos` on: while the next byte is '#', the bytes after it up to
      the next line feed (or the end of the stream) form one line, and the line feed is
      consumed. Also returns the position after the last header line. */
  function HeaderLines(s: seq<Byte>, pos: nat): (r: (seq<seq<Byte>>, nat))
    requires pos <= |s|
    ensures pos <= r.1 <= |s|
    ensures r.1 < |s| ==> s[r.1] != Hash
    ensures r.0 == [] <==> !(pos < |s| && s[pos] == Hash)
    ensures forall k, i :: 0 <= k < |r.0| && 0 <= i < |r.0[k]| ==> r.0[k][i] != LineFeed
    decreases |s| - pos
  {
    if pos < |s| && s[pos] == Hash then
      var nl := LineEnd(s, pos + 1);
      var rest := HeaderLines(s, if nl < |s| then nl + 1 else nl);
      var lines := [s[pos + 1 .. nl]] + rest.0;
      assert forall k, i :: 0 <= k < |lines| && 0 <= i < |lines[k]| ==> lines[k][i] != LineFeed by {
        forall k, i | 0 <= k < |lines| && 0 <= i < |lines[k]|
          ensures lines[k][i] != LineFeed
        {
          if k == 0 {
            assert lines[k][i] == s[pos + 1 + i];
          } else {
            assert lines[k] == rest.0[k - 1];
          }
        }
      }
      (lines, rest.1)
    else ([], pos)
  }

  /** The inner loop of read_header: the bytes from `start` up to the next line feed or the
      end of the stream, and the position of that line feed (or the end). */
  method ReadLine(s: seq<Byte>, start: nat) returns (line: seq<Byte>, pos: nat)
    requires start <= |s|
    ensures pos == LineEnd(s, start) && line == s[start .. pos]
  {
    line, pos := [], start;
    while pos < |s| && s[pos] != LineFeed
      invariant start <= pos <= |s|
      invariant line == s[start .. pos]
      invariant LineEnd(s, pos) == LineEnd(s, start)
      decreases |s| - pos
    {
      line := line + [s[pos]];
      pos := pos + 1;
    }
  }

  /** The header-line loop of read_header: peek for '#', skip it, and collect the line. */
  method CollectHeaderLines(s: seq<Byte>) returns (lines: seq<seq<Byte>>, pos: nat)
    ensures (lines, pos) == HeaderLines(s, 0)
  {
    lines, pos := [], 0;
    assert lines + HeaderLines(s, pos).0 == HeaderLines(s, pos).0;
    while pos < |s| && s[pos] == Hash
      invariant pos <= |s|
      invariant HeaderLines(s, 0) == (lines + HeaderLines(s, pos).0, HeaderLines(s, pos).1)
      decreases |s| - pos
    {
      ghost var start := pos;
      var line;
      line, pos := ReadLine(s, pos + 1);
      if pos < |s| {
        pos := pos + 1;
      }
      ghost var rest := HeaderLines(s, pos);
      assert HeaderLines(s, start) == ([line] + rest.0, rest.1);
      AppendAssoc(lines, [line], rest.0);
      lines := lines + [line];
    }
    assert HeaderLines(s, pos) == ([], pos);
    assert lines + [] == lines;
  }

  /** A header line made only of printable and white-space characters. */
  predicate Clean(line: seq<Byte>) {
    forall i :: 0 <= i < |line| ==> IsPrint(line[i]) || IsSpace(line[i])
  }

  predicate AllClean(lines: seq<seq<Byte>>) {
    forall k :: 0 <= k < |lines| ==> Clean(lines[k])
  }

  /** The any_of check of read_header, as two nested loops. */
  method CheckClean(lines: seq<seq<Byte>>) returns (clean: bool)
    ensures clean == AllClean(lines)
  {
    clean := true;
    var k := 0;
    while k < |lines| && clean
      invariant 0 <= k <= |lines|
      invariant clean == AllClean(lines[..k])
    {
      var line := lines[k];
      var i := 0;
      while i < |line| && (IsPrint(line[i]) || IsSpace(line[i]))
        invariant 0 <= i <= |line|
        invariant Clean(line[..i])
      {
        i := i + 1;
      }
      clean := i == |line|;
      assert clean ==> line[..i] == line;
      assert lines[..k + 1] == lines[..k] + [line];
      k := k + 1;
    }
    assert clean ==> lines[..k] == lines;
  }

  // ---------------------------------------------------------------------------------------
  // Words

  /** One character of the word-splitting loop: a white-space character closes the current
      word (opening an empty one) unless there is none or it is already empty; any other
      character extends the current word, opening the first one if needed. */
  function TokenStep(words: seq<seq<Byte>>, c: Byte): seq<seq<Byte>> {
    if IsSpace(c) then
      if words != [] && words[|words| - 1] != [] then words + [[]] else words
    else if words == [] then [[c]]
    else words[..|words| - 1] + [words[|words| - 1] + [c]]
  }

  /** The words of a header line, as read_header splits it. A line that ends in white space
      after a word gets a trailing empty word. */
  function Tokenize(line: seq<Byte>): seq<seq<Byte>>
    decreases |line|
  {
    if line == [] then [] else TokenStep(Tokenize(line[..|line| - 1]), line[|line| - 1])
  }

  /** The word-splitting loop of read_header. */
  method SplitWords(line: seq<Byte>) returns (words: seq<seq<Byte>>)
    ensures words == Tokenize(line)
  {
    words := [];
    for i := 0 to |line|
      invariant words == Tokenize(line[..i])
    {
      var c := line[i];
      assert line[..i + 1][..i] == line[..i] && line[..i + 1][i] == c;
      assert Tokenize(line[..i + 1]) == TokenStep(Tokenize(line[..i]), c);
      if IsSpace(c) {
        if words != [] && words[|words| - 1] != [] {
          words := words + [[]];
        }
      } else if words == [] {
        words := [[c]];
      } else {
        words := words[..|words| - 1] + [words[|words| - 1] + [c]];
      }
    }
    assert line[..|line|] == line;
  }

  predicate NoSpace(w: seq<Byte>) {
    forall i :: 0 <= i < |w| ==> !IsSpace(w[i])
  }

  /** The bytes of a line that are not white space, in order. */
  function NonSpace(line: seq<Byte>): seq<Byte>
    decreases |line|
  {
    if line == [] then []
    else NonSpace(line[..|line| - 1]) + (if IsSpace(line[|line| - 1]) then [] else [line[|line| - 1]])
  }

  function Concat(words: seq<seq<Byte>>): seq<Byte>
    decreases |words|
  {
    if words == [] then [] else Concat(words[..|words| - 1]) + words[|words| - 1]
  }

  /** A line holds a non-space character with a white-space character somewhere after it. */
  predicate SpaceAfterWord(line: seq<Byte>) {
    exists i, j :: 0 <= i < j < |line| && !IsSpace(line[i]) && IsSpace(line[j])
  }

  lemma ConcatSnoc(words: seq<seq<Byte>>, w: seq<Byte>)
    ensures Concat(words + [w]) == Concat(words) + w
  {
    var all := words + [w];
    assert all[..|all| - 1] == words && all[|all| - 1] == w;
  }

  lemma ConcatExtendLast(init: seq<seq<Byte>>, last: seq<Byte>, c: Byte)
    ensures Concat(init + [last + [c]]) == Concat(init + [last]) + [c]
  {
    ConcatSnoc(init, last + [c]);
    ConcatSnoc(init, last);
  }

  /** The words of a line contain no white space. */
  lemma {:induction false} TokenizeNoSpace(line: seq<Byte>)
    ensures forall k :: 0 <= k < |Tokenize(line)| ==> NoSpace(Tokenize(line)[k])
    decreases |line|
  {
    if line != [] {
      var init := line[..|line| - 1];
      TokenizeNoSpace(init);
      var w := Tokenize(init);
      var c := line[|line| - 1];
      if !IsSpace(c) && w != [] {
        var last := w[|w| - 1];
        var w' := w[..|w| - 1] + [last + [c]];
        assert forall k :: 0 <= k < |w| - 1 ==> w'[k] == w[k];
        assert NoSpace(last);
        forall i | 0 <= i < |last| + 1
          ensures !IsSpace((last + [c])[i])
        {
          if i < |last| {
            assert (last + [c])[i] == last[i];
          }
        }
      }
    }
  }

  /** Only the last word of a line can be empty, and the first never is. */
  lemma {:induction false} TokenizeNonEmpty(line: seq<Byte>)
    ensures forall k :: 0 <= k < |Tokenize(line)| - 1 ==> Tokenize(line)[k] != []
    ensures Tokenize(line) != [] ==> Tokenize(line)[0] != []
    decreases |line|
  {
    if line != [] {
      var init := line[..|line| - 1];
      TokenizeNonEmpty(init);
      var w := Tokenize(init);
      var c := line[|line| - 1];
      if !IsSpace(c) && w != [] {
        var w' := w[..|w| - 1] + [w[|w| - 1] + [c]];
        assert forall k :: 0 <= k < |w| - 1 ==> w'[k] == w[k];
      }
    }
  }

  /** Together the words of a line hold exactly its non-space bytes, in order. */
  lemma {:induction false} TokenizeConcat(line: seq<Byte>)
    ensures Concat(Tokenize(line)) == NonSpace(line)
    decreases |line|
  {
    if line != [] {
      var init := line[..|line| - 1];
      TokenizeConcat(init);
      var w := Tokenize(init);
      var c := line[|line| - 1];
      if IsSpace(c) {
        if w != [] && w[|w| - 1] != [] {
          ConcatSnoc(w, []);
        }
      } else if w == [] {
        ConcatSnoc([], [c]);
      } else {
        var init', last := w[..|w| - 1], w[|w| - 1];
        assert w == init' + [last];
        ConcatExtendLast(init', last, c);
      }
    }
  }

  /** A line splits into no word exactly when it is all white space; the last word is empty
      exactly when the line ends in white space; and there are at least two words (the
      condition under which read_header examines a line) exactly when some white space
      follows a non-space character. */
  lemma {:induction false} TokenizeCount(line: seq<Byte>)
    ensures var w := Tokenize(line);
      && (w == [] <==> forall i :: 0 <= i < |line| ==> IsSpace(line[i]))
      && (w != [] ==> (w[|w| - 1] == [] <==> IsSpace(line[|line| - 1])))
      && (|w| > 1 <==> SpaceAfterWord(line))
    decreases |line|
  {
    if line != [] {
      var init := line[..|line| - 1];
      var c := line[|line| - 1];
      TokenizeCount(init);
      TokenizeNonEmpty(init);
      var w := Tokenize(init);
      assert forall i :: 0 <= i < |init| ==> line[i] == init[i];
      if SpaceAfterWord(init) {
        var i, j :| 0 <= i < j < |init| && !IsSpace(init[i]) && IsSpace(init[j]);
        assert !IsSpace(line[i]) && IsSpace(line[j]);
      }
      if IsSpace(c) {
        if w != [] {
          var i :| 0 <= i < |init| && !IsSpace(init[i]);
          assert !IsSpace(line[i]) && IsSpace(line[|line| - 1]);
          if w[|w| - 1] == [] {
            assert |init| - 1 != i;
            assert !IsSpace(init[i]) && IsSpace(init[|init| - 1]);
          }
        }
      } else {
        if SpaceAfterWord(line) {
          var i, j :| 0 <= i < j < |line| && !IsSpace(line[i]) && IsSpace(line[j]);
          assert j < |init|;
          assert !IsSpace(init[i]) && IsSpace(init[j]);
        }
      }
    }
  }

  // ---------------------------------------------------------------------------------------
  // Examining the header lines

  /** `w[i]`, reading past the end of a word as the terminating '\0'. */
  function CharAt(w: seq<Byte>, i: nat): Byte {
    if i < |w| then w[i] else 0
  }

  /** `static_cast<uint8_t>(w[i] - '0')`: the digit value, wrapping modulo 256. */
  function Digit(w: seq<Byte>, i: nat): (d: U8)
    ensures 48 <= CharAt(w, i) < 48 + 256 ==> d == CharAt(w, i) - 48
  {
    (CharAt(w, i) - DigitZero) % 256
  }

  /** A line read_header examines: it splits into at least two words. */
  predicate Examined(line: seq<Byte>) {
    |Tokenize(line)| > 1
  }

  /** An examined line whose first word starts with '!', such as "!AER-DAT2.0". */
  predicate IsVersionLine(line: seq<Byte>) {
    Examined(line) && CharAt(Tokenize(line)[0], 0) == Bang
  }

  predicate IsHardwareLine(line: seq<Byte>) {
    Examined(line) && Tokenize(line)[0] == HardwareInterface()
  }

  predicate IsChipLine(line: seq<Byte>) {
    Examined(line) && Tokenize(line)[0] == AEChip()
  }

  /** One header line's effect on the header: a version line sets both versions from the
      characters at offsets 8 and 10 of its first word, a "HardwareInterface:" line sets the
      geometry to 240 x 180, and an "AEChip:" line sets the height to 180. */
  function Examine(h: Header, line: seq<Byte>): Header {
    var words := Tokenize(line);
    if |words| > 1 then
      var w := words[0];
      if CharAt(w, 0) == Bang then h.(majorVersion := Digit(w, 8), minorVersion := Digit(w, 10))
      else if w == HardwareInterface() then h.(width := 240, height := 180)
      else if w == AEChip() then h.(height := 180)
      else h
    else h
  }

  /** The header after examining the lines in order, starting from the empty header. */
  function Scan(lines: seq<seq<Byte>>): Header
    decreases |lines|
  {
    if lines == [] then EmptyHeader else Examine(Scan(lines[..|lines| - 1]), lines[|lines| - 1])
  }

  /** The header read from the start of a stream, with the position the stream is left at:
      back at 0 when there is no header line or a line holds a character that is neither
      printable nor white space, and otherwise after the header lines; the examined header
      is kept only when it names version 2 or later and a nonzero geometry. */
  function HeaderOf(s: seq<Byte>): (r: (Header, nat))
    ensures r.1 <= |s|
  {
    var (lines, end) := HeaderLines(s, 0);
    if lines == [] || !AllClean(lines) then (DefaultHeader, 0)
    else
      var h := Scan(lines);
      if h.majorVersion >= 2 && h.width > 0 && h.height > 0 then (h, end) else (DefaultHeader, end)
  }

  lemma ExamineCases(h: Header, line: seq<Byte>)
    ensures Examine(h, line).width == (if IsHardwareLine(line) then 240 else h.width)
    ensures Examine(h, line).height == (if IsHardwareLine(line) || IsChipLine(line) then 180 else h.height)
    ensures IsVersionLine(line) ==>
      (Examine(h, line).majorVersion == Digit(Tokenize(line)[0], 8) &&
       Examine(h, line).minorVersion == Digit(Tokenize(line)[0], 10))
    ensures !IsVersionLine(line) ==>
      (Examine(h, line).majorVersion == h.majorVersion && Examine(h, line).minorVersion == h.minorVersion)
  {
    assert HardwareInterface()[0] == 72;
    assert AEChip()[0] == 65;
    assert HardwareInterface() != AEChip() by {
      assert |HardwareInterface()| != |AEChip()|;
    }
  }

  /** The geometry read_header examines is 240 wide exactly when some line is a
      "HardwareInterface:" line, 180 high exactly when some line is that or an "AEChip:"
      line, and zero otherwise. */
  lemma {:induction false} ScanGeometry(lines: seq<seq<Byte>>)
    ensures Scan(lines).width == (if exists k :: 0 <= k < |lines| && IsHardwareLine(lines[k]) then 240 else 0)
    ensures Scan(lines).height ==
      (if exists k :: 0 <= k < |lines| && (IsHardwareLine(lines[k]) || IsChipLine(lines[k])) then 180 else 0)
    decreases |lines|
  {
    if lines != [] {
      var init := lines[..|lines| - 1];
      ScanGeometry(init);
      ExamineCases(Scan(init), lines[|lines| - 1]);
      assert forall k :: 0 <= k < |init| ==> lines[k] == init[k];
      if exists k :: 0 <= k < |lines| && IsHardwareLine(lines[k]) {
        var k :| 0 <= k < |lines| && IsHardwareLine(lines[k]);
        if k < |init| {
          assert IsHardwareLine(init[k]);
        }
      }
      if exists k :: 0 <= k < |lines| && (IsHardwareLine(lines[k]) || IsChipLine(lines[k])) {
        var k :| 0 <= k < |lines| && (IsHardwareLine(lines[k]) || IsChipLine(lines[k]));
        if k < |init| {
          assert IsHardwareLine(init[k]) || IsChipLine(init[k]);
        }
      }
    }
  }

  /** The version comes from the last version line; without one it stays 0.0. */
  lemma {:induction false} ScanVersion(lines: seq<seq<Byte>>, k: nat)
    requires k < |lines| && IsVersionLine(lines[k])
    requires forall m :: k < m < |lines| ==> !IsVersionLine(lines[m])
    ensures Scan(lines).majorVersion == Digit(Tokenize(lines[k])[0], 8)
    ensures Scan(lines).minorVersion == Digit(Tokenize(lines[k])[0], 10)
    decreases |lines|
  {
    var init := lines[..|lines| - 1];
    ExamineCases(Scan(init), lines[|lines| - 1]);
    if k < |init| {
      assert init[k] == lines[k];
      ScanVersion(init, k);
    }
  }

  lemma {:induction false} ScanNoVersion(lines: seq<seq<Byte>>)
    requires forall m :: 0 <= m < |lines| ==> !IsVersionLine(lines[m])
    ensures Scan(lines).majorVersion == 0 && Scan(lines).minorVersion == 0
    decreases |lines|
  {
    if lines != [] {
      var init := lines[..|lines| - 1];
      ExamineCases(Scan(init), lines[|lines| - 1]);
      assert forall m :: 0 <= m < |init| ==> init[m] == lines[m];
      ScanNoVersion(init);
    }
  }

  /** Whatever the stream holds, read_header reports version 2 or later and a 240 x 180
      sensor: the only width a header line can set is 240 and the only height 180. It
      rewinds exactly when there are no header lines or one is not clean, and otherwise
      leaves the stream after the header lines. */
  lemma HeaderOfFacts(s: seq<Byte>)
    ensures HeaderOf(s).0.majorVersion >= 2
    ensures HeaderOf(s).0.width == 240 && HeaderOf(s).0.height == 180
    ensures var (lines, end) := HeaderLines(s, 0);
      HeaderOf(s).1 == (if lines == [] || !AllClean(lines) then 0 else end)
  {
    ScanGeometry(HeaderLines(s, 0).0);
  }

  /** read_header: collect the '#' lines, fall back (and rewind) unless there are some and
      they are clean, split and examine each, and keep the result only when it is plausible. */
  method ReadHeader(s: seq<Byte>) returns (h: Header, pos: nat)
    ensures (h, pos) == HeaderOf(s)
    ensures h.majorVersion >= 2 && h.width == 240 && h.height == 180
  {
    HeaderOfFacts(s);
    var lines, end := CollectHeaderLines(s);
    var clean := CheckClean(lines);
    if lines == [] || !clean {
      return DefaultHeader, 0;
    }
    var header := EmptyHeader;
    for k := 0 to |lines|
      invariant header == Scan(lines[..k])
    {
      var words := SplitWords(lines[k]);
      assert lines[..k + 1][..k] == lines[..k];
      if |words| > 1 {
        var w := words[0];
        if CharAt(w, 0) == Bang {
          header := header.(majorVersion := Digit(w, 8), minorVersion := Digit(w, 10));
        } else if w == HardwareInterface() {
          header := header.(width := 240, height := 180);
        } else if w == AEChip() {
          header := header.(height := 180);
        }
      }
    }
    assert lines[..|lines|] == lines;
    if header.majorVersion >= 2 && header.width > 0 && header.height > 0 {
      return header, end;
    }
    return DefaultHeader, end;
  }

  // ---------------------------------------------------------------------------------------
  // The stream read_header leaves behind

  /** What matters of an input stream here: its position and its end-of-file and failure
      flags. */
  datatype Stream = Stream(pos: nat, eof: bool, fail: bool)

  /** The last header line runs to the end of the stream without a line feed, so the `get()`
      that looked for its end found none and failed. */
  predicate LastLineUnterminated(s: seq<Byte>) {
    var (lines, end) := HeaderLines(s, 0);
    lines != [] && end == |s| && s[|s| - 1] != LineFeed
  }

  /** read_header falls back although its stream has failed: the one case in which the model
      and the code part ways. */
  predicate StuckAfterHeader(s: seq<Byte>) {
    var (lines, end) := HeaderLines(s, 0);
    (lines == [] || !AllClean(lines)) && LastLineUnterminated(s)
  }

  /** The stream as read_header leaves it. After the header-line loops it stands after the
      last header line; a `peek()` or `get()` that reached the end set the end-of-file flag,
      and a `get()` that found no line feed set the failure flag as well. On the fallback path
      `seekg(0)` first clears the end-of-file flag and then moves to the start only when the
      failure flag is clear, so a failed stream stays where it is. */
  function HeaderStream(s: seq<Byte>): (st: Stream)
    ensures st.pos <= |s|
  {
    var (lines, end) := HeaderLines(s, 0);
    var fail := LastLineUnterminated(s);
    if lines == [] || !AllClean(lines) then
      if fail then Stream(end, false, true) else Stream(0, false, false)
    else Stream(end, end == |s|, fail)
  }

  /** `read(n)`: on a stream that is not good nothing is read and the failure flag is set;
      otherwise `n` bytes are read when there are that many, and else what is left is consumed
      and both flags are set. */
  function ReadBytes(s: seq<Byte>, st: Stream, n: nat): (r: (Stream, seq<Byte>))
    requires st.pos <= |s|
    ensures r.0.pos <= |s| && |r.1| <= n
  {
    if st.eof || st.fail then (st.(fail := true), [])
    else if st.pos + n <= |s| then (st.(pos := st.pos + n), s[st.pos .. st.pos + n])
    else (Stream(|s|, true, true), s[st.pos..])
  }

  /** The read loops of the observables end exactly as `DvsObservable` and `DavisObservable`
      say: on a good stream a read reports the end of the stream exactly when fewer than `n`
      bytes are left, and otherwise delivers the next `n` bytes and leaves the stream good
      after them; on a stream already at its end, the first read ends the loop. */
  lemma ReadEndsLoop(s: seq<Byte>, p: nat, n: nat)
    requires p <= |s|
    ensures var (st, bytes) := ReadBytes(s, Stream(p, false, false), n);
      && (st.eof <==> |s| < p + n)
      && (p + n <= |s| ==> st == Stream(p + n, false, false) && bytes == s[p .. p + n])
    ensures ReadBytes(s, Stream(|s|, true, false), n).0.eof
    ensures ReadBytes(s, Stream(|s|, true, true), n).0.eof
  {
  }

  /** Outside the stuck case the model's stream position is where the code's stream reads
      from: the stream is good and stands there, or it stands at the end with the end-of-file
      flag set and the model starts at the end as well, so neither reads a record. In the
      stuck case the model rewinds to the start while the code's stream stays failed at the
      end without the end-of-file flag. */
  lemma HeaderStreamAgrees(s: seq<Byte>)
    ensures var st, pos := HeaderStream(s), HeaderOf(s).1;
      if StuckAfterHeader(s) then st == Stream(|s|, false, true) && pos == 0
      else st == Stream(pos, false, false) || (st.eof && st.pos == pos == |s|)
  {
  }

  /** As written, read_header strands the observables: for the two bytes `#` and 0x01 (one
      header line that is not clean and has no line feed) it falls back, but the stream stays
      failed at its end without the end-of-file flag, and every read leaves it exactly so:
      the `for (;;)` loop of either observable never ends. The model rewinds to the start. */
  lemma StuckHeaderNeverEnds(s: seq<Byte>)
    requires s == [Hash, 1]
    ensures StuckAfterHeader(s)
    ensures HeaderStream(s) == Stream(2, false, true) && HeaderOf(s).1 == 0
    ensures forall n: nat :: ReadBytes(s, HeaderStream(s), n) == (HeaderStream(s), [])
  {
    var line: seq<Byte> := [1];
    assert LineEnd(s, 2) == 2 && LineEnd(s, 1) == 2;
    assert s[1..2] == line;
    assert HeaderLines(s, 2) == ([], 2);
    assert [s[1..2]] + HeaderLines(s, 2).0 == [line];
    assert HeaderLines(s, 0) == ([line], 2);
    assert !(IsPrint(line[0]) || IsSpace(line[0]));
    assert !AllClean([line]) by {
      assert [line][0] == line;
    }
  }

  // ---------------------------------------------------------------------------------------
  // Raw records

  /** An AEDAT 1.0 record: a little-endian timestamp in bytes 0-3, x in bits 1-7 of byte 4,
      the polarity in its bit 0, and the row in bits 0-5 of byte 5, flipped against the
      header's height and truncated to uint16. */
  function BytesToDvsEvent(b: Record6, h: Header): (e: DvsEvent)
    ensures e.t < TwoTo32 && e.x < 128 && e.y < TwoTo16
  {
    var b4: int, b5: int := b[4], b[5];
    DvsEvent(LE32(b[0], b[1], b[2], b[3]), b4 / 2, (h.height - 1 - b5 % 64) % TwoTo16, b4 % 2 == 1)
  }

  /** The row lies on the sensor exactly when the raw row is below the height; then it is
      the raw row counted from the bottom. */
  lemma DvsRowInRange(b: Record6, h: Header)
    ensures var v: int := b[5]; BytesToDvsEvent(b, h).y < h.height <==> v % 64 < h.height
    ensures var v: int := b[5]; v % 64 < h.height ==> BytesToDvsEvent(b, h).y == h.height - 1 - v % 64
  {
  }

  /** The record of a DVS128 event, with `row` the raw (unflipped) row. */
  function EncodeDvs(t: nat, x: nat, row: nat, isIncrease: bool): (b: Record6)
    requires t < TwoTo32 && x < 128 && row < 64
  {
    [ByteOf(t, 0), ByteOf(t, 1), ByteOf(t, 2), ByteOf(t, 3), 2 * x + (if isIncrease then 1 else 0), row]
  }

  /** Decoding the record of an event on the sensor gives the event back. */
  lemma DvsDecodeEncode(t: nat, x: nat, y: nat, isIncrease: bool, h: Header)
    requires t < TwoTo32 && x < 128 && y < h.height && h.height - 1 - y < 64
    ensures BytesToDvsEvent(EncodeDvs(t, x, h.height - 1 - y, isIncrease), h) == DvsEvent(t, x, y, isIncrease)
  {
    var row := h.height - 1 - y;
    var b := EncodeDvs(t, x, row, isIncrease);
    var b4: int, b5: int := b[4], b[5];
    var p := if isIncrease then 1 else 0;
    assert b4 == 2 * x + p && b5 == row;
    assert b4 / 2 == x && b4 % 2 == p;
    assert b5 % 64 == row;
    assert (h.height - 1 - b5 % 64) % TwoTo16 == y;
    LE32OfBytes(t);
    assert LE32(b[0], b[1], b[2], b[3]) == t;
  }

  /** An AEDAT 2.0 record of a version-2 stream whose bit 7 of byte 0 is clear is a DVS
      event: a big-endian timestamp in bytes 4-7, x from bits 0-5 of byte 1 over bits 4-7
      of byte 2, y from bits 0-6 of byte 0 over bits 6-7 of byte 1, and the polarity in
      bit 3 of byte 2. Any other record decodes to the sentinel `Sentinel`. */
  function BytesToDavisEvent(b: Record8, h: Header): (e: DvsEvent)
    ensures e.t < TwoTo32 && e.x < 1024 && e.y < 512
    ensures var b0: int := b[0]; (h.majorVersion == 2 && b0 < 128) || e == Sentinel
  {
    var b0: int, b1: int, b2: int := b[0], b[1], b[2];
    if h.majorVersion == 2 && b0 < 128 then
      DvsEvent(LE32(b[7], b[6], b[5], b[4]), 16 * (b1 % 64) + b2 / 16, 4 * (b0 % 128) + b1 / 64, (b2 / 8) % 2 == 1)
    else Sentinel
  }

  /** The record of a DAVIS polarity event. */
  function EncodeDavis(t: nat, x: nat, y: nat, isIncrease: bool): (b: Record8)
    requires t < TwoTo32 && x < 1024 && y < 512
  {
    [y / 4, 64 * (y % 4) + x / 16, 16 * (x % 16) + (if isIncrease then 8 else 0), 0,
     ByteOf(t, 3), ByteOf(t, 2), ByteOf(t, 1), ByteOf(t, 0)]
  }

  /** In a version-2 stream, decoding the record of a DVS event gives it back. */
  lemma DavisDecodeEncode(t: nat, x: nat, y: nat, isIncrease: bool, h: Header)
    requires t < TwoTo32 && x < 1024 && y < 512 && h.majorVersion == 2
    ensures BytesToDavisEvent(EncodeDavis(t, x, y, isIncrease), h) == DvsEvent(t, x, y, isIncrease)
  {
    var b := EncodeDavis(t, x, y, isIncrease);
    var p := if isIncrease then 1 else 0;
    DavisFields(x, y, p);
    var b0: int, b1: int, b2: int := b[0], b[1], b[2];
    assert b0 == y / 4 && b1 == 64 * (y % 4) + x / 16 && b2 == 16 * (x % 16) + 8 * p;
    LE32OfBytes(t);
    assert LE32(b[7], b[6], b[5], b[4]) == t;
  }

  /** The bit fields of bytes 0-2 of a DAVIS record give back x, y and the polarity. */
  lemma DavisFields(x: nat, y: nat, p: nat)
    requires x < 1024 && y < 512 && p < 2
    ensures var b0, b1, b2 := y / 4, 64 * (y % 4) + x / 16, 16 * (x % 16) + 8 * p;
      b0 < 128 && 16 * (b1 % 64) + b2 / 16 == x && 4 * (b0 % 128) + b1 / 64 == y && (b2 / 8) % 2 == p
  {
    var b0, b1, b2 := y / 4, 64 * (y % 4) + x / 16, 16 * (x % 16) + 8 * p;
    assert b1 % 64 == x / 16 && b1 / 64 == y % 4;
    assert b2 / 16 == x % 16;
    assert b2 / 8 == 2 * (x % 16) + p;
  }

  // ---------------------------------------------------------------------------------------
  // Observables

  /** Whether the observable loop hands an event on, given the previous timestamp it handed
      on: not older than that, on the sensor, and (for a DAVIS stream) not a zero timestamp. */
  predicate Passes(e: DvsEvent, previous: nat, h: Header, skipZero: bool) {
    (!skipZero || e.t != 0) && e.t >= previous && e.x < h.width && e.y < h.height
  }

  /** The events handed on, in order, from a sequence of decoded events. */
  function Observe(evs: seq<DvsEvent>, previous: nat, h: Header, skipZero: bool): seq<DvsEvent>
    decreases |evs|
  {
    if evs == [] then []
    else if Passes(evs[0], previous, h, skipZero) then [evs[0]] + Observe(evs[1..], evs[0].t, h, skipZero)
    else Observe(evs[1..], previous, h, skipZero)
  }

  ghost predicate Chronological(evs: seq<DvsEvent>) {
    forall i, j :: 0 <= i < j < |evs| ==> evs[i].t <= evs[j].t
  }

  /** What an observable promises about the events it hands on. */
  ghost predicate Observed(out: seq<DvsEvent>, evs: seq<DvsEvent>, previous: nat, h: Header, skipZero: bool) {
    && Chronological(out)
    && (forall k :: 0 <= k < |out| ==> Passes(out[k], previous, h, skipZero))
    && IsSubseq(out, evs)
  }

  /** The events handed on are chronological, none is older than `previous`, all are on the
      sensor (and nonzero when asked), and they are a subsequence of the decoded events. */
  lemma {:induction false} ObserveGuarantees(evs: seq<DvsEvent>, previous: nat, h: Header, skipZero: bool)
    ensures Observed(Observe(evs, previous, h, skipZero), evs, previous, h, skipZero)
    decreases |evs|
  {
    if evs != [] {
      var e := evs[0];
      assert evs == [e] + evs[1..];
      if Passes(e, previous, h, skipZero) {
        var rest := Observe(evs[1..], e.t, h, skipZero);
        ObserveGuarantees(evs[1..], e.t, h, skipZero);
        SubseqCons(e, rest, evs[1..]);
        var out := [e] + rest;
        forall k | 0 <= k < |out|
          ensures Passes(out[k], previous, h, skipZero)
        {
          if k > 0 {
            assert out[k] == rest[k - 1];
          }
        }
        forall i, j | 0 <= i < j < |out|
          ensures out[i].t <= out[j].t
        {
          assert out[j] == rest[j - 1];
          if i > 0 {
            assert out[i] == rest[i - 1];
          }
        }
      } else {
        ObserveGuarantees(evs[1..], previous, h, skipZero);
        SubseqCons(e, Observe(evs[1..], previous, h, skipZero), evs[1..]);
      }
    }
  }

  /** A chronological sequence of events on the sensor, none older than `previous` (nor
      zero when asked), is handed on unchanged. */
  lemma {:induction false} ObserveKeepsGood(evs: seq<DvsEvent>, previous: nat, h: Header, skipZero: bool)
    requires Chronological(evs)
    requires forall k :: 0 <= k < |evs| ==> Passes(evs[k], previous, h, skipZero)
    ensures Observe(evs, previous, h, skipZero) == evs
    decreases |evs|
  {
    if evs != [] {
      var rest := evs[1..];
      assert forall k :: 0 <= k < |rest| ==> rest[k] == evs[k + 1];
      ObserveKeepsGood(rest, evs[0].t, h, skipZero);
      assert evs == [evs[0]] + rest;
    }
  }

  /** The decoded events of a sequence of records, one for one. */
  function DecodeDvs(rs: seq<Record6>, h: Header): (evs: seq<DvsEvent>)
    ensures |evs| == |rs| && forall k :: 0 <= k < |rs| ==> evs[k] == BytesToDvsEvent(rs[k], h)
  {
    seq(|rs|, k requires 0 <= k < |rs| => BytesToDvsEvent(rs[k], h))
  }

  function DecodeDavis(rs: seq<Record8>, h: Header): (evs: seq<DvsEvent>)
    ensures |evs| == |rs| && forall k :: 0 <= k < |rs| ==> evs[k] == BytesToDavisEvent(rs[k], h)
  {
    seq(|rs|, k requires 0 <= k < |rs| => BytesToDavisEvent(rs[k], h))
  }

  /** The decoded events of the complete records of a byte string, read front to back; a
      trailing incomplete record is not decoded. */
  function DvsEvents(bytes: seq<Byte>, h: Header): (evs: seq<DvsEvent>)
    decreases |bytes|
  {
    if |bytes| < 6 then [] else [BytesToDvsEvent(bytes[..6], h)] + DvsEvents(bytes[6..], h)
  }

  function DavisEvents(bytes: seq<Byte>, h: Header): (evs: seq<DvsEvent>)
    decreases |bytes|
  {
    if |bytes| < 8 then [] else [BytesToDavisEvent(bytes[..8], h)] + DavisEvents(bytes[8..], h)
  }

  /** One event per complete record. */
  lemma {:induction false} DvsEventsCount(bytes: seq<Byte>, h: Header)
    ensures |DvsEvents(bytes, h)| == |bytes| / 6
    decreases |bytes|
  {
    if |bytes| >= 6 {
      DvsEventsCount(bytes[6..], h);
    }
  }

  lemma {:induction false} DavisEventsCount(bytes: seq<Byte>, h: Header)
    ensures |DavisEvents(bytes, h)| == |bytes| / 8
    decreases |bytes|
  {
    if |bytes| >= 8 {
      DavisEventsCount(bytes[8..], h);
    }
  }

  /** The events are those of the complete records, one for one. */
  lemma {:induction false} DvsEventsOfRecords(bytes: seq<Byte>, h: Header)
    ensures DvsEvents(bytes, h) == DecodeDvs(Records6(bytes), h)
    decreases |bytes|
  {
    if |bytes| >= 6 {
      DvsEventsOfRecords(bytes[6..], h);
      assert Records6(bytes) == [bytes[..6]] + Records6(bytes[6..]);
      DecodeDvsCons(bytes[..6], Records6(bytes[6..]), h);
    }
  }

  lemma {:induction false} DavisEventsOfRecords(bytes: seq<Byte>, h: Header)
    ensures DavisEvents(bytes, h) == DecodeDavis(Records8(bytes), h)
    decreases |bytes|
  {
    if |bytes| >= 8 {
      DavisEventsOfRecords(bytes[8..], h);
      assert Records8(bytes) == [bytes[..8]] + Records8(bytes[8..]);
      DecodeDavisCons(bytes[..8], Records8(bytes[8..]), h);
    }
  }

  lemma DecodeDvsCons(r: Record6, rs: seq<Record6>, h: Header)
    ensures DecodeDvs([r] + rs, h) == [BytesToDvsEvent(r, h)] + DecodeDvs(rs, h)
  {
    var evs := DecodeDvs([r] + rs, h);
    assert forall k :: 0 < k < |evs| ==> ([r] + rs)[k] == rs[k - 1];
  }

  lemma DecodeDavisCons(r: Record8, rs: seq<Record8>, h: Header)
    ensures DecodeDavis([r] + rs, h) == [BytesToDavisEvent(r, h)] + DecodeDavis(rs, h)
  {
    var evs := DecodeDavis([r] + rs, h);
    assert forall k :: 0 < k < |evs| ==> ([r] + rs)[k] == rs[k - 1];
  }

  /** Reading one more record: the events of `s[p..]` start with the record at `p`. */
  lemma DvsEventsStep(s: seq<Byte>, p: nat, h: Header)
    requires p + 6 <= |s|
    ensures DvsEvents(s[p..], h) == [BytesToDvsEvent(s[p .. p + 6], h)] + DvsEvents(s[p + 6 ..], h)
  {
    assert s[p..][..6] == s[p .. p + 6];
    assert s[p..][6..] == s[p + 6 ..];
  }

  lemma DavisEventsStep(s: seq<Byte>, p: nat, h: Header)
    requires p + 8 <= |s|
    ensures DavisEvents(s[p..], h) == [BytesToDavisEvent(s[p .. p + 8], h)] + DavisEvents(s[p + 8 ..], h)
  {
    assert s[p..][..8] == s[p .. p + 8];
    assert s[p..][8..] == s[p + 8 ..];
  }

  /** Observing one more event at the front. */
  lemma ObserveCons(e: DvsEvent, rest: seq<DvsEvent>, previous: nat, h: Header, skipZero: bool)
    ensures Observe([e] + rest, previous, h, skipZero) ==
      if Passes(e, previous, h, skipZero) then [e] + Observe(rest, e.t, h, skipZero)
      else Observe(rest, previous, h, skipZero)
  {
    assert ([e] + rest)[0] == e && ([e] + rest)[1..] == rest;
  }

  /** One read of the DVS loop: the record at `p` is handed on when it passes, and the rest
      of the stream is observed after it. */
  lemma ObserveDvsStep(s: seq<Byte>, p: nat, previous: nat, h: Header)
    requires p + 6 <= |s|
    ensures var e := BytesToDvsEvent(s[p .. p + 6], h);
      Observe(DvsEvents(s[p..], h), previous, h, false) ==
        if Passes(e, previous, h, false) then [e] + Observe(DvsEvents(s[p + 6 ..], h), e.t, h, false)
        else Observe(DvsEvents(s[p + 6 ..], h), previous, h, false)
  {
    DvsEventsStep(s, p, h);
    ObserveCons(BytesToDvsEvent(s[p .. p + 6], h), DvsEvents(s[p + 6 ..], h), previous, h, false);
  }

  lemma ObserveDavisStep(s: seq<Byte>, p: nat, previous: nat, h: Header)
    requires p + 8 <= |s|
    ensures var e := BytesToDavisEvent(s[p .. p + 8], h);
      Observe(DavisEvents(s[p..], h), previous, h, true) ==
        if Passes(e, previous, h, true) then [e] + Observe(DavisEvents(s[p + 8 ..], h), e.t, h, true)
        else Observe(DavisEvents(s[p + 8 ..], h), previous, h, true)
  {
    DavisEventsStep(s, p, h);
    ObserveCons(BytesToDavisEvent(s[p .. p + 8], h), DavisEvents(s[p + 8 ..], h), previous, h, true);
  }

  /** One read of the DVS loop, on the loop's whole state: after the record at `p` is handed
      on (when it passes) what is still to come from the rest of the stream completes it. */
  lemma DvsLoopStep(s: seq<Byte>, p: nat, previous: nat, h: Header, events: seq<DvsEvent>, target: seq<DvsEvent>)
    requires p + 6 <= |s|
    requires events + Observe(DvsEvents(s[p..], h), previous, h, false) == target
    ensures var e := BytesToDvsEvent(s[p .. p + 6], h);
      if Passes(e, previous, h, false) then (events + [e]) + Observe(DvsEvents(s[p + 6 ..], h), e.t, h, false) == target
      else events + Observe(DvsEvents(s[p + 6 ..], h), previous, h, false) == target
  {
    var e := BytesToDvsEvent(s[p .. p + 6], h);
    ObserveDvsStep(s, p, previous, h);
    if Passes(e, previous, h, false) {
      AppendAssoc(events, [e], Observe(DvsEvents(s[p + 6 ..], h), e.t, h, false));
    }
  }

  lemma DavisLoopStep(s: seq<Byte>, p: nat, previous: nat, h: Header, events: seq<DvsEvent>, target: seq<DvsEvent>)
    requires p + 8 <= |s|
    requires events + Observe(DavisEvents(s[p..], h), previous, h, true) == target
    ensures var e := BytesToDavisEvent(s[p .. p + 8], h);
      if Passes(e, previous, h, true) then (events + [e]) + Observe(DavisEvents(s[p + 8 ..], h), e.t, h, true) == target
      else events + Observe(DavisEvents(s[p + 8 ..], h), previous, h, true) == target
  {
    var e := BytesToDavisEvent(s[p .. p + 8], h);
    ObserveDavisStep(s, p, previous, h);
    if Passes(e, previous, h, true) {
      AppendAssoc(events, [e], Observe(DavisEvents(s[p + 8 ..], h), e.t, h, true));
    }
  }

  /** dvs_observable: read 6-byte records from `pos` until a short read, decode each, and
      hand on those that pass, remembering the last timestamp handed on. */
  method DvsObservable(s: seq<Byte>, pos: nat, h: Header) returns (events: seq<DvsEvent>)
    requires pos <= |s|
    ensures events == Observe(DvsEvents(s[pos..], h), 0, h, false)
    ensures Observed(events, DvsEvents(s[pos..], h), 0, h, false)
  {
    ghost var target := Observe(DvsEvents(s[pos..], h), 0, h, false);
    events := [];
    var previous: nat := 0;
    var p := pos;
    while p + 6 <= |s|
      invariant pos <= p <= |s|
      invariant events + Observe(DvsEvents(s[p..], h), previous, h, false) == target
      decreases |s| - p
    {
      var e := BytesToDvsEvent(s[p .. p + 6], h);
      DvsLoopStep(s, p, previous, h, events, target);
      if e.t >= previous && e.x < h.width && e.y < h.height {
        events := events + [e];
        previous := e.t;
      }
      p := p + 6;
    }
    assert DvsEvents(s[p..], h) == [];
    assert events + [] == events;
    ObserveGuarantees(DvsEvents(s[pos..], h), 0, h, false);
  }

  /** davis_observable: as dvs_observable over 8-byte records, also dropping zero timestamps
      (which is what every record that is not a DVS event decodes to). */
  method DavisObservable(s: seq<Byte>, pos: nat, h: Header) returns (events: seq<DvsEvent>)
    requires pos <= |s|
    ensures events == Observe(DavisEvents(s[pos..], h), 0, h, true)
    ensures Observed(events, DavisEvents(s[pos..], h), 0, h, true)
  {
    ghost var target := Observe(DavisEvents(s[pos..], h), 0, h, true);
    events := [];
    var previous: nat := 0;
    var p := pos;
    while p + 8 <= |s|
      invariant pos <= p <= |s|
      invariant events + Observe(DavisEvents(s[p..], h), previous, h, true) == target
      decreases |s| - p
    {
      var e := BytesToDavisEvent(s[p .. p + 8], h);
      DavisLoopStep(s, p, previous, h, events, target);
      if e.t != 0 {
        if e.t >= previous && e.x < h.width && e.y < h.height {
          events := events + [e];
          previous := e.t;
        }
      }
      p := p + 8;
    }
    assert DavisEvents(s[p..], h) == [];
    assert events + [] == events;
    ObserveGuarantees(DavisEvents(s[pos..], h), 0, h, true);
  }

  /** A stream whose header is not version 2 yields no DAVIS event at all: every record
      decodes to the sentinel, whose zero timestamp is dropped. */
  lemma {:induction false} DavisOtherVersionEmpty(evs: seq<DvsEvent>, previous: nat, h: Header)
    requires forall k :: 0 <= k < |evs| ==> evs[k] == Sentinel
    ensures Observe(evs, previous, h, true) == []
    decreases |evs|
  {
    if evs != [] {
      assert forall k :: 0 <= k < |evs| - 1 ==> evs[1..][k] == evs[k + 1];
      DavisOtherVersionEmpty(evs[1..], previous, h);
    }
  }

  lemma DavisNeedsVersion2(s: seq<Byte>, pos: nat, h: Header)
    requires pos <= |s| && h.majorVersion != 2
    ensures Observe(DavisEvents(s[pos..], h), 0, h, true) == []
  {
    DavisEventsOfRecords(s[pos..], h);
    DavisOtherVersionEmpty(DavisEvents(s[pos..], h), 0, h);
  }

  /** A record whose event has a zero timestamp is dropped, whether it is the sentinel or a
      genuine DVS event at t = 0 (which `DavisDecodeEncode` shows can be encoded). */
  lemma DavisDropsZeroTimestamp(b: Record8, previous: nat, h: Header)
    requires BytesToDavisEvent(b, h).t == 0
    ensures Observe(DavisEvents(b, h), previous, h, true) == []
  {
    assert b[..8] == b && b[8..] == [];
    assert DavisEvents(b, h) == [BytesToDavisEvent(b, h)];
  }

  /** Reading a header and then DAVIS events from where it leaves the stream yields
      chronological events with nonzero timestamps on a 240 x 180 sensor. */
  lemma HeaderThenDavis(s: seq<Byte>)
    ensures var (h, pos) := HeaderOf(s);
      var out := Observe(DavisEvents(s[pos..], h), 0, h, true);
      && Chronological(out)
      && forall k :: 0 <= k < |out| ==> out[k].t > 0 && out[k].x < 240 && out[k].y < 180
  {
    HeaderOfFacts(s);
    var (h, pos) := HeaderOf(s);
    ObserveGuarantees(DavisEvents(s[pos..], h), 0, h, true);
  }
}
