/**
 * Sitemap file names: `GenerateFilename` builds
 * `<base><B><category><B><number><B><dd><D><MM><D><yyyy><B><HH><D><mm>.xml`
 * and the loader reads the category and the number back from blocks 1 and 2.
 */
module Filenames {
  import opened Wrappers
  import opened Strings

  /** The block separator `B` and the date separator `D` of `FilenameSeparators`. */
  datatype Separators = Separators(block: char, date: char)

  /**
   * Separators the name format can be split on: the block separator differs from the
   * date separator and cannot occur in a formatted number, neither of them is a dot.
   */
  predicate ValidSeparators(seps: Separators)
  {
    && seps.block != seps.date
    && seps.block != '.' && seps.date != '.'
    && seps.block != '-'
    && !IsDigit(seps.block) && !IsDigit(seps.date)
    && !IsWhiteSpace(seps.block)
  }

  /** `DateTime.Now` down to the minute (Gregorian calendar). */
  datatype Stamp = Stamp(day: int, month: int, year: int, hour: int, minute: int)

  predicate ValidStamp(st: Stamp)
  {
    1 <= st.day <= 31 && 1 <= st.month <= 12 && 1 <= st.year <= 9999 &&
    0 <= st.hour <= 23 && 0 <= st.minute <= 59
  }

  /** A number below `10^width` written with exactly `width` digits, zero-padded. */
  function Padded(n: nat, width: nat): (s: string)
    requires n < Pow10(width)
    ensures |s| == width && AllDigits(s)
  {
    if width == 0 then [] else Padded(n / 10, width - 1) + [DigitChar(n % 10)]
  }

  function Pow10(k: nat): (p: nat)
    ensures p >= 1
  {
    if k == 0 then 1 else 10 * Pow10(k - 1)
  }

  /** The date block, `dd D MM D yyyy`. */
  function DateBlock(seps: Separators, st: Stamp): string
    requires ValidStamp(st)
  {
    Padded(st.day, 2) + [seps.date] + Padded(st.month, 2) + [seps.date] + Padded(st.year, 4)
  }

  /** The time block, `HH D mm`. */
  function TimeBlock(seps: Separators, st: Stamp): string
    requires ValidStamp(st)
  {
    Padded(st.hour, 2) + [seps.date] + Padded(st.minute, 2)
  }

  /** `DateTime.Now.ToString("dd D MM D yyyy B HH D mm")`. */
  function FormatStamp(seps: Separators, st: Stamp): string
    requires ValidStamp(st)
  {
    DateBlock(seps, st) + [seps.block] + TimeBlock(seps, st)
  }

  const Extension: string := ".xml"

  /** `GenerateFilename(category, sitemapNumber)` at time `now`. */
  function GenerateFilename(baseName: string, seps: Separators, category: string, number: Int32, now: Stamp): string
    requires ValidStamp(now)
  {
    baseName + [seps.block] + category + [seps.block] + IntToString(number) + [seps.block] +
    FormatStamp(seps, now) + Extension
  }

  /** What the loader keeps of a file name: `.xml` removed wherever it occurs, then trimmed. */
  function StemAsWritten(fileName: string): string
  {
    Trim(RemoveAll(fileName, Extension))
  }

  /** The identity of a loaded bucket: its file name, category and number. */
  datatype FileHeader = FileHeader(filename: string, category: string, number: Int32)

  /**
   * Blocks 1 and 2 of the stem: the trimmed category and the parsed number (0 when it does
   * not parse). None when the stem has fewer than three blocks, where the indexing throws.
   */
  function ReadBlocks(seps: Separators, stem: string): Option<(string, Int32)>
  {
    var blocks := Split(stem, seps.block);
    if |blocks| < 3 then None else Some((Trim(blocks[1]), ParseOrZero(blocks[2])))
  }

  /** The bucket header as the loader builds it: `Filename` is the stem, without `.xml`. */
  function HeaderAsWritten(seps: Separators, fileName: string): Option<FileHeader>
  {
    match ReadBlocks(seps, StemAsWritten(fileName))
    case None => None
    case Some(cn) => Some(FileHeader(StemAsWritten(fileName), cn.0, cn.1))
  }

  /** The bucket header with `Filename` kept as the name of the file it was read from. */
  function Header(seps: Separators, fileName: string): Option<FileHeader>
  {
    match ReadBlocks(seps, StemAsWritten(fileName))
    case None => None
    case Some(cn) => Some(FileHeader(fileName, cn.0, cn.1))
  }

  // ---------------------------------------------------------------------------
  // Lemmas

  lemma {:induction false} PaddedText(n: nat, width: nat)
    requires n < Pow10(width)
    ensures forall c :: c in Padded(n, width) ==> IsDigit(c)
  {
    var s := Padded(n, width);
    assert forall i :: 0 <= i < |s| ==> IsDigit(s[i]);
  }

  /** A zero-padded field reads back as the number it was formatted from. */
  lemma {:induction false} PaddedValue(n: nat, width: nat)
    requires n < Pow10(width)
    ensures DigitsValue(Padded(n, width)) == n
    decreases width
  {
    if width > 0 {
      PaddedValue(n / 10, width - 1);
      var s := Padded(n, width);
      assert s[..|s| - 1] == Padded(n / 10, width - 1);
    }
  }

  lemma NumberText(n: Int32)
    ensures forall c :: c in IntToString(n) ==> IsDigit(c) || c == '-'
  {
    var m: nat := if n < 0 then -(n as int) else n;
    NatToStringDigits(m);
    var s := IntToString(n);
    if n < 0 {
      assert s == "-" + NatToString(m);
    }
  }

  /** The formatted time holds only digits and the date separator, and ends in a digit. */
  lemma StampText(seps: Separators, now: Stamp)
    requires ValidStamp(now)
    ensures forall c :: c in DateBlock(seps, now) ==> IsDigit(c) || c == seps.date
    ensures forall c :: c in TimeBlock(seps, now) ==> IsDigit(c) || c == seps.date
    ensures var t := TimeBlock(seps, now); |t| > 0 && IsDigit(t[|t| - 1])
  {
    PaddedText(now.day, 2); PaddedText(now.month, 2); PaddedText(now.year, 4);
    PaddedText(now.hour, 2); PaddedText(now.minute, 2);
    var m := Padded(now.minute, 2);
    assert TimeBlock(seps, now)[|TimeBlock(seps, now)| - 1] == m[1];
  }

  /** A generated name starts with the base name and a block separator and ends in `.xml`. */
  lemma GeneratedNameShape(baseName: string, seps: Separators, category: string, number: Int32, now: Stamp)
    requires ValidStamp(now)
    ensures var r := GenerateFilename(baseName, seps, category, number, now);
      && |r| > |baseName| + |Extension|
      && r[..|baseName|] == baseName && r[|baseName|] == seps.block
      && r[|r| - |Extension|..] == Extension
  {
  }

  /** Five separator-free pieces joined by the separator split back into those pieces. */
  lemma {:induction false} SplitFive(x0: string, x1: string, x2: string, x3: string, x4: string, b: char)
    requires b !in x0 && b !in x1 && b !in x2 && b !in x3 && b !in x4
    ensures Split(x0 + ([b] + x1 + [b] + x2 + [b] + x3 + [b] + x4), b) == [x0, x1, x2, x3, x4]
  {
    assert x0 + ([b] + x1 + [b] + x2 + [b] + x3 + [b] + x4)
        == x0 + [b] + (x1 + [b] + (x2 + [b] + (x3 + [b] + x4)));
    SplitAtFirst(x0, x1 + [b] + (x2 + [b] + (x3 + [b] + x4)), b);
    SplitAtFirst(x1, x2 + [b] + (x3 + [b] + x4), b);
    SplitAtFirst(x2, x3 + [b] + x4, b);
    SplitAtFirst(x3, x4, b);
    SplitNoSeparator(x4, b);
  }

  /** What follows the base name in a generated name holds no dot and ends in a digit of the time. */
  lemma GeneratedTail(seps: Separators, category: string, number: Int32, now: Stamp)
    requires ValidSeparators(seps) && ValidStamp(now) && '.' !in category
    ensures var time := TimeBlock(seps, now);
      var rest := [seps.block] + category + [seps.block] + IntToString(number) + [seps.block] +
                  DateBlock(seps, now) + [seps.block] + time;
      '.' !in rest && |time| > 0 && rest[|rest| - 1] == time[|time| - 1]
  {
    NumberText(number);
    StampText(seps, now);
  }

  /** The stem the loader keeps of a generated name: the name without `.xml` and leading blanks. */
  lemma {:induction false} StemOfGenerated(baseName: string, seps: Separators, category: string, number: Int32, now: Stamp)
    requires ValidSeparators(seps) && ValidStamp(now)
    requires '.' !in baseName && '.' !in category
    ensures var rest := [seps.block] + category + [seps.block] + IntToString(number) + [seps.block] +
                        DateBlock(seps, now) + [seps.block] + TimeBlock(seps, now);
      && GenerateFilename(baseName, seps, category, number, now) == baseName + rest + Extension
      && StemAsWritten(GenerateFilename(baseName, seps, category, number, now)) == TrimStart(baseName) + rest
  {
    var b := seps.block;
    var time := TimeBlock(seps, now);
    var rest := [b] + category + [b] + IntToString(number) + [b] + DateBlock(seps, now) + [b] + time;
    GeneratedTail(seps, category, number, now);
    var p := baseName + rest;
    assert GenerateFilename(baseName, seps, category, number, now) == p + Extension;
    RemoveAllTrailing(p, Extension);
    TrimStartConcat(baseName, rest);
    var t := TrimStart(baseName) + rest;
    assert t[|t| - 1] == time[|time| - 1];
    TrimStartNoLead(baseName);
    assert |t| > 0 && !IsWhiteSpace(t[0]);
    TrimNoWhiteSpaceEnds(t);
    TrimStartIdempotent(p);
  }

  /**
   * A generated name, once `.xml` is removed and the text trimmed, splits on the block
   * separator into exactly five blocks: the base name (leading blanks trimmed), the category,
   * the number, the date and the time.
   */
  lemma {:induction false} GeneratedNameBlocks(baseName: string, seps: Separators, category: string, number: Int32, now: Stamp)
    requires ValidSeparators(seps) && ValidStamp(now)
    requires seps.block !in baseName && '.' !in baseName
    requires seps.block !in category && '.' !in category
    ensures Split(StemAsWritten(GenerateFilename(baseName, seps, category, number, now)), seps.block)
         == [TrimStart(baseName), category, IntToString(number), DateBlock(seps, now), TimeBlock(seps, now)]
  {
    var b := seps.block;
    StemOfGenerated(baseName, seps, category, number, now);
    NumberText(number);
    StampText(seps, now);
    TrimStartIsSuffix(baseName);
    assert b !in TrimStart(baseName);
    assert b !in IntToString(number);
    assert b !in DateBlock(seps, now);
    assert b !in TimeBlock(seps, now);
    SplitFive(TrimStart(baseName), category, IntToString(number), DateBlock(seps, now), TimeBlock(seps, now), b);
  }

  /**
   * The loader reads back what `GenerateFilename` wrote: the (trimmed) category from
   * block 1 and the number from block 2; the header keeps the file's own name.
   */
  lemma {:induction false} FilenameRoundTrip(baseName: string, seps: Separators, category: string, number: Int32, now: Stamp)
    requires ValidSeparators(seps) && ValidStamp(now)
    requires seps.block !in baseName && '.' !in baseName
    requires seps.block !in category && '.' !in category
    ensures var name := GenerateFilename(baseName, seps, category, number, now);
      Header(seps, name) == Some(FileHeader(name, Trim(category), number))
  {
    GeneratedNameBlocks(baseName, seps, category, number, now);
    ParseFormatRoundTrip(number);
  }

  /**
   * As written, the loader's `Filename` is the generated name minus `.xml`: a bucket
   * loaded from a file and later rewritten is saved under a different, extension-less name.
   */
  lemma {:induction false} HeaderAsWrittenDropsExtension(baseName: string, seps: Separators, category: string, number: Int32, now: Stamp)
    requires ValidSeparators(seps) && ValidStamp(now)
    requires seps.block !in baseName && '.' !in baseName
    requires seps.block !in category && '.' !in category
    requires |baseName| == 0 || !IsWhiteSpace(baseName[0])
    ensures var name := GenerateFilename(baseName, seps, category, number, now);
      && HeaderAsWritten(seps, name).Some?
      && HeaderAsWritten(seps, name).value.filename + Extension == name
      && HeaderAsWritten(seps, name).value.filename != name
  {
    GeneratedNameBlocks(baseName, seps, category, number, now);
    StemOfGenerated(baseName, seps, category, number, now);
    if |baseName| > 0 {
      assert TrimStart(baseName) == baseName;
    }
  }
}
