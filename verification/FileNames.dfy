/** The names of the files in the storage directory, and how a listing is read back. */
module FileNames {
  import opened Disk
  import opened JournalSpec

  const LONG_LIMIT: int := 0x8000_0000_0000_0000  // txids and epochs are signed 64-bit integers

  const EDITS := "edits"
  const EDITS_INPROGRESS := "edits_inprogress"

  // ----- Decimal numbers -----

  function Digit(d: nat): char
    requires d < 10
  {
    '0' + d as char
  }

  predicate IsDigit(c: char) { '0' <= c <= '9' }

  predicate AllDigits(s: string) { forall i :: 0 <= i < |s| ==> IsDigit(s[i]) }

  function Decimal(n: nat): (s: string)
    ensures s != [] && AllDigits(s)
  {
    if n < 10 then [Digit(n)] else Decimal(n / 10) + [Digit(n % 10)]
  }

  function Zeros(k: nat): (s: string)
    ensures |s| == k && forall i :: 0 <= i < k ==> s[i] == '0'
  {
    seq(k, _ => '0')
  }

  /** setfill('0') and setw(19). */
  function Padded(n: nat): (s: string)
    ensures s != [] && AllDigits(s)
  {
    var s := Decimal(n);
    if |s| < 19 then Zeros(19 - |s|) + s else s
  }

  function Value(s: string): nat
    requires AllDigits(s)
  {
    if s == [] then 0 else Value(s[..|s| - 1]) * 10 + (s[|s| - 1] - '0') as nat
  }

  /** strtol on digits: it saturates at the largest long. */
  function Strtol(s: string): nat
    requires AllDigits(s)
  {
    if Value(s) < LONG_LIMIT then Value(s) else LONG_LIMIT - 1
  }

  lemma {:induction false} ValueDecimal(n: nat)
    ensures Value(Decimal(n)) == n
  {
    if n >= 10 {
      ValueDecimal(n / 10);
      assert Decimal(n)[..|Decimal(n)| - 1] == Decimal(n / 10);
    }
  }

  lemma {:induction false} ValueZeros(k: nat, s: string)
    requires AllDigits(s)
    ensures AllDigits(Zeros(k) + s) && Value(Zeros(k) + s) == Value(s)
    decreases k + |s|
  {
    var t := Zeros(k) + s;
    if s != [] {
      ValueZeros(k, s[..|s| - 1]);
      assert t[..|t| - 1] == Zeros(k) + s[..|s| - 1];
    } else if k > 0 {
      ValueZeros(k - 1, s);
      assert t[..|t| - 1] == Zeros(k - 1) + s;
    }
  }

  lemma StrtolPadded(n: nat)
    requires n < LONG_LIMIT
    ensures Strtol(Padded(n)) == n
  {
    ValueDecimal(n);
    var s := Decimal(n);
    if |s| < 19 {
      ValueZeros(19 - |s|, s);
    }
  }

  function Power10(k: nat): nat {
    if k == 0 then 1 else 10 * Power10(k - 1)
  }

  lemma {:induction false} DecimalLength(n: nat, k: nat)
    requires k > 0 && n < Power10(k)
    ensures |Decimal(n)| <= k
  {
    if n >= 10 {
      assert k > 1 by { assert Power10(1) == 10; }
      DecimalLength(n / 10, k - 1);
    }
  }

  /** Every id that fits a long takes 19 digits in a name, and they are its value. */
  lemma PaddedWidth(n: nat)
    requires n < LONG_LIMIT
    ensures |Padded(n)| == 19 && Value(Padded(n)) == n
  {
    assert Power10(19) == 10_000_000_000_000_000_000 by { PowersOf10(); }
    DecimalLength(n, 19);
    ValueDecimal(n);
    if |Decimal(n)| < 19 {
      ValueZeros(19 - |Decimal(n)|, Decimal(n));
    }
  }

  lemma PowersOf10()
    ensures Power10(19) == 10_000_000_000_000_000_000
  {
    assert Power10(4) == 10_000;
    assert Power10(8) == 100_000_000;
    assert Power10(12) == 1_000_000_000_000;
    assert Power10(16) == 10_000_000_000_000_000;
  }

  // ----- Names -----

  ghost predicate IsLong(n: int) { 0 <= n < LONG_LIMIT }

  /** The ids in a name fit the machine. */
  ghost predicate Nameable(f: LogName) {
    match f
    case InProgress(s) => IsLong(s)
    case Finalized(s, e) => IsLong(s) && IsLong(e)
    case SyncTemp(s, epoch) => IsLong(s) && IsLong(epoch)
    case Empty(g) => Nameable(g)
  }

  function InProgressEditsFileName(s: nat): string { EDITS_INPROGRESS + "_" + Padded(s) }

  function FinalizedEditsFileName(s: nat, e: nat): string { EDITS + "_" + Padded(s) + "-" + Padded(e) }

  function Name(f: LogName): string
    requires Nameable(f)
  {
    match f
    case InProgress(s) => InProgressEditsFileName(s)
    case Finalized(s, e) => FinalizedEditsFileName(s, e)
    case SyncTemp(s, epoch) => InProgressEditsFileName(s) + ".epoch=" + Decimal(epoch)
    case Empty(g) => Name(g) + ".empty"
  }

  // ----- Reading a listing -----

  predicate StartsWith(s: string, p: string) { |p| <= |s| && s[..|p|] == p }

  /** How many digits s starts with. */
  function DigitRun(s: string): (k: nat)
    ensures k <= |s| && AllDigits(s[..k]) && (k < |s| ==> !IsDigit(s[k]))
  {
    if s == [] || !IsDigit(s[0]) then 0
    else
      var k := 1 + DigitRun(s[1..]);
      assert s[1..][..k - 1] == s[1..k];
      assert forall i :: 0 <= i < k ==> s[..k][i] == if i == 0 then s[0] else s[1..k][i - 1];
      k
  }

  /** The two groups of ^edits_(\d+)-(\d+)$, if the name matches. */
  function MatchFinalized(s: string): (r: Option<(string, string)>)
    ensures r.Some? ==> AllDigits(r.value.0) && AllDigits(r.value.1)
  {
    if !StartsWith(s, "edits_") then None
    else
      var rest := s[6..];
      var k := DigitRun(rest);
      if k == 0 || k == |rest| || rest[k] != '-' then None
      else
        var tail := rest[k + 1..];
        if tail != [] && DigitRun(tail) == |tail| then
          assert tail[..|tail|] == tail;
          Some((rest[..k], tail))
        else None
  }

  /** The group of ^edits_inprogress_(\d+)$, if the name matches. */
  function MatchInProgress(s: string): (r: Option<string>)
    ensures r.Some? ==> AllDigits(r.value)
  {
    if !StartsWith(s, "edits_inprogress_") then None
    else
      var rest := s[17..];
      if rest != [] && DigitRun(rest) == |rest| then
        assert rest[..|rest|] == rest;
        Some(rest)
      else None
  }

  lemma {:induction false} DigitRunIs(a: string, b: string)
    requires AllDigits(a) && (b == [] || !IsDigit(b[0]))
    ensures DigitRun(a + b) == |a|
  {
    if a == [] {
      assert a + b == b;
    } else {
      DigitRunIs(a[1..], b);
      assert (a + b)[1..] == a[1..] + b;
    }
  }

  lemma MatchFinalizedForm(a: string, b: string)
    requires a != [] && b != [] && AllDigits(a) && AllDigits(b)
    ensures MatchFinalized("edits_" + (a + ("-" + b))) == Some((a, b))
  {
    var rest := a + ("-" + b);
    Cut("edits_", rest);
    DigitRunIs(a, "-" + b);
    Cut(a, "-" + b);
    assert rest[|a| + 1..] == b;
    DigitRunIs(b, []);
    assert b + [] == b;
  }

  lemma MatchFinalizedOnly(s: string, a: string, b: string)
    requires MatchFinalized(s) == Some((a, b))
    ensures s == "edits_" + (a + ("-" + b))
  {
    var rest := s[6..];
    assert s == s[..6] + rest;
    assert rest == rest[..|a|] + ([rest[|a|]] + rest[|a| + 1..]);
  }

  /** The matchers are the regular expressions: a name matches exactly when it has that form. */
  lemma MatchFinalizedIff(s: string, a: string, b: string)
    requires a != [] && b != [] && AllDigits(a) && AllDigits(b)
    ensures MatchFinalized(s) == Some((a, b)) <==> s == "edits_" + a + "-" + b
  {
    assert "edits_" + a + "-" + b == "edits_" + (a + ("-" + b));
    MatchFinalizedForm(a, b);
    if MatchFinalized(s) == Some((a, b)) {
      MatchFinalizedOnly(s, a, b);
    }
  }

  lemma MatchInProgressIff(s: string, a: string)
    requires a != [] && AllDigits(a)
    ensures MatchInProgress(s) == Some(a) <==> s == "edits_inprogress_" + a
  {
    if s == "edits_inprogress_" + a {
      assert s[..17] == "edits_inprogress_" && s[17..] == a;
      DigitRunIs(a, []);
      assert a + [] == a;
    }
    if MatchInProgress(s) == Some(a) {
      assert s == s[..17] + s[17..];
    }
  }

  /** What matchEditLogs makes of one name. */
  function Parse(s: string): Option<LogName> {
    var f := MatchFinalized(s);
    if f.Some? then Some(Finalized(Strtol(f.value.0), Strtol(f.value.1)))
    else
      var p := MatchInProgress(s);
      if p.Some? then Some(InProgress(Strtol(p.value))) else None
  }

  lemma MatchedEndsInDigit(s: string)
    requires Parse(s).Some?
    ensures s != [] && IsDigit(s[|s| - 1])
  {
    var f, p := MatchFinalized(s), MatchInProgress(s);
    if f.Some? {
      MatchFinalizedIff(s, f.value.0, f.value.1);
    } else {
      MatchInProgressIff(s, p.value);
    }
  }

  lemma NoDigitAfterEdits(s: string, c: char)
    requires |s| > 6 && s[..6] == "edits_" && s[6] == c && !IsDigit(c)
    ensures MatchFinalized(s).None?
  {
    assert s[6..][0] == c;
  }

  /** Built names of logs read back as the ids they were built from. */
  lemma ParseName(f: LogName)
    requires Nameable(f) && (f.InProgress? || f.Finalized?)
    ensures Parse(Name(f)) == Some(f)
  {
    hide MatchFinalized, MatchInProgress, Strtol, Padded;
    var s := Name(f);
    StrtolPadded(f.first);
    if f.Finalized? {
      StrtolPadded(f.last);
      MatchFinalizedIff(s, Padded(f.first), Padded(f.last));
    } else {
      InProgressIsNotFinalized(f.first);
      MatchInProgressIff(s, Padded(f.first));
    }
  }

  lemma InProgressIsNotFinalized(first: nat)
    ensures MatchFinalized(InProgressEditsFileName(first)).None?
  {
    hide Padded;
    var s := InProgressEditsFileName(first);
    assert s[..6] == "edits_" && s[6] == 'i';
    NoDigitAfterEdits(s, 'i');
  }

  /** Ids in names that the node did not build are read with all their digits, up to the largest long. */
  lemma ForeignIds(a: string, b: string)
    requires a != [] && AllDigits(a) && b != [] && AllDigits(b)
    ensures
      var max := 9_223_372_036_854_775_807;
      var (x, y) := (if Value(a) <= max then Value(a) else max, if Value(b) <= max then Value(b) else max);
      && Parse("edits_inprogress_" + a) == Some(InProgress(x))
      && Parse("edits_" + a + "-" + b) == Some(Finalized(x, y))
  {
    hide MatchFinalized, MatchInProgress, Value;
    var s := "edits_inprogress_" + a;
    assert s[..6] == "edits_" && s[6] == 'i';
    NoDigitAfterEdits(s, 'i');
    MatchInProgressIff(s, a);
    MatchFinalizedIff("edits_" + a + "-" + b, a, b);
  }

  /** Whatever is moved aside, under any suffix that does not end in a digit, is never listed as a log. */
  lemma SuffixedIsIgnored(s: string, suffix: string)
    requires suffix != [] && !IsDigit(suffix[|suffix| - 1])
    ensures Parse(s + suffix) == None
  {
    assert (s + suffix)[|s + suffix| - 1] == suffix[|suffix| - 1];
    if Parse(s + suffix).Some? {
      MatchedEndsInDigit(s + suffix);
    }
  }

  lemma Cut(p: string, s: string)
    ensures (p + s)[..|p|] == p && (p + s)[|p|..] == s
  {
  }

  function EpochSuffix(epoch: nat): (t: string)
    ensures |t| > 7 && t[..7] == ".epoch=" && t[7..] == Decimal(epoch)
  {
    ".epoch=" + Decimal(epoch)
  }

  lemma TempNameParts(s: nat, epoch: nat)
    ensures InProgressEditsFileName(s) + ".epoch=" + Decimal(epoch)
         == "edits_inprogress_" + (Padded(s) + EpochSuffix(epoch))
  {
  }

  /** A downloaded file is never listed as a log, though its name ends in a number. */
  lemma TempIsIgnored(s: nat, epoch: nat)
    ensures Parse(InProgressEditsFileName(s) + ".epoch=" + Decimal(epoch)) == None
  {
    hide Padded, Decimal, EpochSuffix, InProgressEditsFileName;
    TempNameParts(s, epoch);
    var rest := Padded(s) + EpochSuffix(epoch);
    var name := "edits_inprogress_" + rest;
    Cut("edits_inprogress_", rest);
    assert name[..6] == "edits_" && name[6] == 'i';
    NoDigitAfterEdits(name, 'i');
    DigitRunIs(Padded(s), EpochSuffix(epoch));
  }

  /** Exactly the log names are listed, each as itself. */
  lemma ParseIff(f: LogName)
    requires Nameable(f)
    ensures Parse(Name(f)) == if f.InProgress? || f.Finalized? then Some(f) else None
  {
    match f
    case SyncTemp(s, epoch) => TempIsIgnored(s, epoch);
    case Empty(g) => SuffixedIsIgnored(Name(g), ".empty");
    case _ => ParseName(f);
  }

  // ----- Different files have different names -----

  lemma PaddedInjective(a: nat, b: nat)
    requires a < LONG_LIMIT && b < LONG_LIMIT && Padded(a) == Padded(b)
    ensures a == b
  {
    StrtolPadded(a);
    StrtolPadded(b);
  }

  function LastChar(s: string): char
    requires s != []
  {
    s[|s| - 1]
  }

  lemma {:induction false} NameEnds(f: LogName)
    requires Nameable(f)
    ensures Name(f) != [] && (f.Empty? <==> LastChar(Name(f)) == 'y') && (!f.Empty? ==> IsDigit(LastChar(Name(f))))
  {
    match f
    case InProgress(s) => assert LastChar(Name(f)) == LastChar(Padded(s));
    case Finalized(s, e) => assert LastChar(Name(f)) == LastChar(Padded(e));
    case SyncTemp(s, epoch) => assert LastChar(Name(f)) == LastChar(Decimal(epoch));
    case Empty(g) => assert LastChar(Name(f)) == 'y';
  }

  lemma SplitDigits(a: string, b: string, a': string, b': string)
    requires AllDigits(a) && b != [] && !IsDigit(b[0])
    requires AllDigits(a') && b' != [] && !IsDigit(b'[0])
    requires a + b == a' + b'
    ensures a == a' && b == b'
  {
    DigitRunIs(a, b);
    DigitRunIs(a', b');
    Cut(a, b);
    Cut(a', b');
  }

  lemma TempNamesDiffer(s: nat, epoch: nat, s': nat, epoch': nat)
    requires s < LONG_LIMIT && s' < LONG_LIMIT
    requires InProgressEditsFileName(s) + ".epoch=" + Decimal(epoch)
          == InProgressEditsFileName(s') + ".epoch=" + Decimal(epoch')
    ensures s == s' && epoch == epoch'
  {
    hide Padded, Decimal, EpochSuffix, InProgressEditsFileName;
    TempNameParts(s, epoch);
    TempNameParts(s', epoch');
    Cut("edits_inprogress_", Padded(s) + EpochSuffix(epoch));
    Cut("edits_inprogress_", Padded(s') + EpochSuffix(epoch'));
    SplitDigits(Padded(s), EpochSuffix(epoch), Padded(s'), EpochSuffix(epoch'));
    PaddedInjective(s, s');
    ValueDecimal(epoch);
    ValueDecimal(epoch');
  }

  /** No two files share a name, temporary and moved-aside ones included. */
  lemma {:induction false} NamesInjective(f: LogName, g: LogName)
    requires Nameable(f) && Nameable(g) && Name(f) == Name(g)
    ensures f == g
    decreases f
  {
    NameEnds(f);
    NameEnds(g);
    if f.Empty? {
      assert Name(f)[..|Name(f)| - 6] == Name(f.moved);
      assert Name(g)[..|Name(g)| - 6] == Name(g.moved);
      NamesInjective(f.moved, g.moved);
    } else {
      ParseIff(f);
      ParseIff(g);
      if f.SyncTemp? {
        TempNamesDiffer(f.first, f.epoch, g.first, g.epoch);
      }
    }
  }

  // ----- The listing loop -----

  ghost function Parsed(names: seq<string>): seq<LogName> {
    if names == [] then []
    else
      var p := Parse(names[|names| - 1]);
      Parsed(names[..|names| - 1]) + if p.Some? then [p.value] else []
  }

  method MatchEditLogs(filesInStorage: seq<string>) returns (ret: seq<LogName>)
    ensures ret == Parsed(filesInStorage)
  {
    ret := [];
    for i := 0 to |filesInStorage|
      invariant ret == Parsed(filesInStorage[..i])
    {
      assert filesInStorage[..i + 1][..i] == filesInStorage[..i];
      var finalizedMatchResults := MatchFinalized(filesInStorage[i]);
      if finalizedMatchResults.Some? {
        var (startTxStr, endTxStr) := finalizedMatchResults.value;
        ret := ret + [Finalized(Strtol(startTxStr), Strtol(endTxStr))];
      } else {
        var inProgressMatchResults := MatchInProgress(filesInStorage[i]);
        if inProgressMatchResults.Some? {
          ret := ret + [InProgress(Strtol(inProgressMatchResults.value))];
        }
      }
    }
    assert filesInStorage[..|filesInStorage|] == filesInStorage;
  }

  ghost function NamesOf(files: seq<LogName>): seq<string>
    requires forall f <- files :: Nameable(f)
  {
    seq(|files|, i requires 0 <= i < |files| => Name(files[i]))
  }

  /** A listing of the directory's names reads back as the directory's logs, without repetition. */
  lemma ListingReadsBack(files: seq<LogName>)
    requires forall f <- files :: Nameable(f)
    requires forall i, j :: 0 <= i < j < |files| ==> files[i] != files[j]
    ensures forall f :: f in Parsed(NamesOf(files)) <==> f in files && IsSegmentFile(f)
    ensures forall i, j :: 0 <= i < j < |Parsed(NamesOf(files))| ==>
        Parsed(NamesOf(files))[i] != Parsed(NamesOf(files))[j]
  {
    hide Parsed, NamesOf, Nameable;
    ParsedIsFiltered(files);
    FilteredElements(files);
    FilteredDistinct(files);
  }

  /** The segment files of a listing, in its order. */
  ghost function Filtered(files: seq<LogName>): seq<LogName> {
    if files == [] then []
    else
      var f := files[|files| - 1];
      Filtered(files[..|files| - 1]) + if IsSegmentFile(f) then [f] else []
  }

  lemma {:induction false} ParsedIsFiltered(files: seq<LogName>)
    requires forall f <- files :: Nameable(f)
    ensures Parsed(NamesOf(files)) == Filtered(files)
  {
    hide Parse, Name;
    if files != [] {
      var front, f := files[..|files| - 1], files[|files| - 1];
      assert f in files;
      assert forall g <- front :: g in files;
      ParsedIsFiltered(front);
      assert NamesOf(files)[..|files| - 1] == NamesOf(front);
      assert NamesOf(files)[|files| - 1] == Name(f);
      ParseIff(f);
    }
  }

  lemma {:induction false} FilteredElements(files: seq<LogName>)
    ensures forall f :: f in Filtered(files) <==> f in files && IsSegmentFile(f)
  {
    hide IsSegmentFile;
    if files != [] {
      var front, f := files[..|files| - 1], files[|files| - 1];
      FilteredElements(front);
      assert files == front + [f];
    }
  }

  lemma {:induction false} FilteredDistinct(files: seq<LogName>)
    requires forall i, j :: 0 <= i < j < |files| ==> files[i] != files[j]
    ensures forall i, j :: 0 <= i < j < |Filtered(files)| ==> Filtered(files)[i] != Filtered(files)[j]
  {
    hide IsSegmentFile;
    if files != [] {
      var front, f := files[..|files| - 1], files[|files| - 1];
      FilteredDistinct(front);
      FilteredElements(front);
      assert f !in front;
    }
  }
}
