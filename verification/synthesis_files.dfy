// Dated summary files `YYYY-MM-DD-N.md`: parsing, printing, ordering and rollover (memory/path.rs).
module SynthesisFiles {
  import opened Text
  import FileStorage

  const U32_MAX: nat := 0xFFFF_FFFF

  /** What a folder holds: the size in bytes of each file. */
  type Folder = map<string, nat>

  datatype Key = Key(date: string, suffix: nat)

  // ---------------------------------------------------------------------------
  // Dates
  // ---------------------------------------------------------------------------

  datatype Date = Date(year: nat, month: nat, day: nat)

  predicate ValidDate(d: Date) {
    d.year <= 9999 && 1 <= d.month <= 12 && 1 <= d.day <= 31
  }

  predicate Before(a: Date, b: Date) {
    || a.year < b.year
    || (a.year == b.year && (a.month < b.month || (a.month == b.month && a.day < b.day)))
  }

  /** The last `width` decimal digits of `n`. */
  function Pad(n: nat, width: nat): (s: string)
    ensures |s| == width
  {
    if width == 0 then [] else Pad(n / 10, width - 1) + [DigitChar(n % 10)]
  }

  function Pow10(k: nat): (p: nat)
    ensures p >= 1
  {
    if k == 0 then 1 else 10 * Pow10(k - 1)
  }

  /** `%Y-%m-%d`. */
  function DateText(d: Date): string {
    Pad(d.year, 4) + (['-'] + (Pad(d.month, 2) + (['-'] + Pad(d.day, 2))))
  }

  lemma {:induction false} PadValue(n: nat, width: nat)
    requires n < Pow10(width)
    ensures AllDigits(Pad(n, width)) && NumeralValue(Pad(n, width)) == n
  {
    if width > 0 {
      PadValue(n / 10, width - 1);
      assert Pad(n, width)[..width - 1] == Pad(n / 10, width - 1);
    }
  }

  /** The text of a date: its year in four digits, its month and its day in two. */
  predicate DatePrints(d: Date, year: string, month: string, day: string) {
    && |year| == 4 && AllDigits(year) && NumeralValue(year) == d.year
    && |month| == 2 && AllDigits(month) && NumeralValue(month) == d.month
    && |day| == 2 && AllDigits(day) && NumeralValue(day) == d.day
  }

  lemma DateTextPrints(d: Date) returns (year: string, month: string, day: string)
    requires ValidDate(d)
    ensures DatePrints(d, year, month, day) && DateText(d) == year + (['-'] + (month + (['-'] + day)))
  {
    assert Pow10(2) == 100 by { assert Pow10(0) == 1 && Pow10(1) == 10; }
    assert Pow10(4) == 10000 by { assert Pow10(3) == 10 * Pow10(2); }
    PadValue(d.year, 4);
    PadValue(d.month, 2);
    PadValue(d.day, 2);
    year, month, day := Pad(d.year, 4), Pad(d.month, 2), Pad(d.day, 2);
  }

  /** Strings that agree in length are compared block by block. */
  lemma {:induction false} LessAppend(a: string, x: string, b: string, y: string)
    requires |a| == |b|
    ensures Less(a + x, b + y) <==> Less(a, b) || (a == b && Less(x, y))
  {
    var s, t := a + x, b + y;
    if a == [] {
      assert s == x && t == y;
    } else {
      assert s[0] == a[0] && s[1..] == a[1..] + x;
      assert t[0] == b[0] && t[1..] == b[1..] + y;
      LessAppend(a[1..], x, b[1..], y);
      assert a == [a[0]] + a[1..] && b == [b[0]] + b[1..];
      LessIrreflexive(a);
    }
  }

  lemma {:induction false} PadOrder(m: nat, n: nat, width: nat)
    requires m < Pow10(width) && n < Pow10(width)
    ensures Less(Pad(m, width), Pad(n, width)) <==> m < n
    ensures Pad(m, width) == Pad(n, width) <==> m == n
  {
    if width > 0 {
      PadOrder(m / 10, n / 10, width - 1);
      var c, d := DigitChar(m % 10), DigitChar(n % 10);
      LessAppend(Pad(m / 10, width - 1), [c], Pad(n / 10, width - 1), [d]);
      SnocEqual(Pad(m / 10, width - 1), c, Pad(n / 10, width - 1), d);
      assert [c][1..] == [] && [d][1..] == [];
    }
  }

  lemma SnocEqual(a: string, c: char, b: string, d: char)
    ensures a + [c] == b + [d] <==> a == b && c == d
  {
    if a + [c] == b + [d] {
      assert |a| == |b|;
      assert a == (a + [c])[..|a|] && b == (b + [d])[..|b|];
      assert (a + [c])[|a|] == c && (b + [d])[|b|] == d;
    }
  }

  lemma AppendEqual(a: string, x: string, b: string, y: string)
    requires |a| == |b|
    ensures a + x == b + y <==> a == b && x == y
  {
    if a + x == b + y {
      assert a == (a + x)[..|a|] && b == (b + y)[..|b|];
      assert x == (a + x)[|a|..] && y == (b + y)[|b|..];
    }
  }

  /** The order of printed dates is the order of the calendar. */
  lemma DateOrder(a: Date, b: Date)
    requires ValidDate(a) && ValidDate(b)
    ensures Less(DateText(a), DateText(b)) <==> Before(a, b)
    ensures DateText(a) == DateText(b) <==> a == b
  {
    assert Pow10(2) == 100 by { assert Pow10(0) == 1 && Pow10(1) == 10; }
    assert Pow10(4) == 10000 by { assert Pow10(3) == 10 * Pow10(2); }
    PadOrder(a.year, b.year, 4);
    PadOrder(a.month, b.month, 2);
    PadOrder(a.day, b.day, 2);
    var da, db := Pad(a.day, 2), Pad(b.day, 2);
    var ma, mb := Pad(a.month, 2) + (['-'] + da), Pad(b.month, 2) + (['-'] + db);
    DashOrder(da, db);
    LessAppend(Pad(a.month, 2), ['-'] + da, Pad(b.month, 2), ['-'] + db);
    AppendEqual(Pad(a.month, 2), ['-'] + da, Pad(b.month, 2), ['-'] + db);
    DashOrder(ma, mb);
    LessAppend(Pad(a.year, 4), ['-'] + ma, Pad(b.year, 4), ['-'] + mb);
    AppendEqual(Pad(a.year, 4), ['-'] + ma, Pad(b.year, 4), ['-'] + mb);
  }

  lemma DashOrder(x: string, y: string)
    ensures Less(['-'] + x, ['-'] + y) <==> Less(x, y)
    ensures ['-'] + x == ['-'] + y <==> x == y
  {
    LessAppend(['-'], x, ['-'], y);
    AppendEqual(['-'], x, ['-'], y);
    LessIrreflexive(['-']);
  }

  // ---------------------------------------------------------------------------
  // Names
  // ---------------------------------------------------------------------------

  /** What is before and after the first dash. */
  function CutDash(s: string): Option<(string, string)> {
    var i := FirstIndex(s, '-');
    if i == |s| then None else Some((s[..i], s[i + 1..]))
  }

  function StripMd(name: string): Option<string> {
    if |name| >= 3 && name[|name| - 3..] == ".md" then Some(name[..|name| - 3]) else None
  }

  /** `YYYY-MM-DD-N.md` as an ordering key; any other name, or a suffix beyond `u32`, is no summary file. */
  function ParseFilename(name: string): Option<Key> {
    match StripMd(name)
    case None => None
    case Some(stem) => ParseStem(stem)
  }

  function ParseStem(stem: string): Option<Key> {
    match CutDash(stem)
    case None => None
    case Some((y, afterYear)) =>
      match CutDash(afterYear)
      case None => None
      case Some((m, afterMonth)) =>
        match CutDash(afterMonth)
        case None => None
        case Some((d, n)) =>
          if |y| != 4 || !AllDigits(y) || |m| != 2 || !AllDigits(m) || |d| != 2 || !AllDigits(d) then None
          else if n == [] || !AllDigits(n) then None
          else if NumeralValue(n) > U32_MAX then None
          else Some(Key(y + (['-'] + (m + (['-'] + d))), NumeralValue(n)))
  }

  /** `{date}-{suffix:02}.md`. */
  function FileName(date: string, suffix: nat): string {
    date + (['-'] + TwoDigits(suffix)) + ".md"
  }

  lemma CutAt(a: string, x: string)
    requires AllDigits(a)
    ensures CutDash(a + (['-'] + x)) == Some((a, x))
  {
    var s := a + ['-'] + x;
    FirstIndexIs(a, |a|, '-');
    FirstIndexAt(a, x, '-');
    assert a + (['-'] + x) == s;
    assert s[..|a|] == a && s[|a| + 1..] == x;
  }

  lemma {:induction false} PadDigits(n: nat, width: nat)
    ensures AllDigits(Pad(n, width))
  {
    if width > 0 { PadDigits(n / 10, width - 1); }
  }

  lemma StripSuffix(stem: string)
    ensures StripMd(stem + ".md") == Some(stem)
  {
    var name := stem + ".md";
    assert name[|name| - 3..] == ".md" && name[..|name| - 3] == stem;
  }

  lemma Regroup(a: string, b: string, c: string, x: string)
    ensures (a + (['-'] + (b + (['-'] + c)))) + x == a + (['-'] + (b + (['-'] + (c + x))))
  {}

  /** Every printed name parses back to the date and suffix it was printed from. */
  lemma FileNameRoundTrip(d: Date, suffix: nat)
    requires suffix <= U32_MAX
    ensures ParseFilename(FileName(DateText(d), suffix)) == Some(Key(DateText(d), suffix))
  {
    var y, m, dd, n := Pad(d.year, 4), Pad(d.month, 2), Pad(d.day, 2), TwoDigits(suffix);
    PadDigits(d.year, 4);
    PadDigits(d.month, 2);
    PadDigits(d.day, 2);
    TwoDigitsRoundTrip(suffix);
    var stem := DateText(d) + (['-'] + n);
    StripSuffix(stem);
    Regroup(y, m, dd, ['-'] + n);
    CutAt(y, m + (['-'] + (dd + (['-'] + n))));
    CutAt(m, dd + (['-'] + n));
    CutAt(dd, n);
  }

  /** `name` is `y-m-d-n.md` with digits only, of the lengths of a date, and a suffix that fits `u32`. */
  predicate Spells(name: string, y: string, m: string, d: string, n: string) {
    && AllDigits(y) && |y| == 4 && AllDigits(m) && |m| == 2 && AllDigits(d) && |d| == 2
    && AllDigits(n) && n != [] && NumeralValue(n) <= 0xFFFF_FFFF
    && name == (y + (['-'] + (m + (['-'] + (d + (['-'] + n)))))) + ".md"
  }

  function KeyOf(y: string, m: string, d: string, n: string): Key
    requires AllDigits(n)
  {
    Key(y + (['-'] + (m + (['-'] + d))), NumeralValue(n))
  }

  lemma CutJoins(s: string)
    ensures CutDash(s).Some? ==> s == CutDash(s).value.0 + (['-'] + CutDash(s).value.1)
  {
    var i := FirstIndex(s, '-');
    FirstIndexFacts(s, '-');
    if i < |s| { assert s == s[..i] + (['-'] + s[i + 1..]); }
  }

  lemma StripJoins(name: string)
    ensures StripMd(name).Some? ==> name == StripMd(name).value + ".md"
  {
    if StripMd(name).Some? { assert name == name[..|name| - 3] + name[|name| - 3..]; }
  }

  lemma SpelledParses(name: string, y: string, m: string, d: string, n: string)
    requires Spells(name, y, m, d, n)
    ensures ParseFilename(name) == Some(KeyOf(y, m, d, n))
  {
    StripSuffix(y + (['-'] + (m + (['-'] + (d + (['-'] + n))))));
    CutAt(y, m + (['-'] + (d + (['-'] + n))));
    CutAt(m, d + (['-'] + n));
    CutAt(d, n);
  }

  lemma ParsedSpells(name: string) returns (y: string, m: string, d: string, n: string)
    requires ParseFilename(name).Some?
    ensures Spells(name, y, m, d, n) && ParseFilename(name).value == KeyOf(y, m, d, n)
  {
    var stem := StripMd(name).value;
    StripJoins(name);
    CutJoins(stem);
    y := CutDash(stem).value.0;
    var afterYear := CutDash(stem).value.1;
    CutJoins(afterYear);
    m := CutDash(afterYear).value.0;
    var afterMonth := CutDash(afterYear).value.1;
    CutJoins(afterMonth);
    d, n := CutDash(afterMonth).value.0, CutDash(afterMonth).value.1;
  }

  /** Exactly the names of that form are summary files, and the key is their date and the value of their suffix. */
  lemma ParseIff(name: string, key: Key)
    ensures ParseFilename(name) == Some(key) <==>
            exists y, m, d, n :: Spells(name, y, m, d, n) && key == KeyOf(y, m, d, n)
  {
    if ParseFilename(name) == Some(key) {
      var y, m, d, n := ParsedSpells(name);
    }
    if y, m, d, n :| Spells(name, y, m, d, n) && key == KeyOf(y, m, d, n) {
      SpelledParses(name, y, m, d, n);
    }
  }

  // ---------------------------------------------------------------------------
  // The latest file
  // ---------------------------------------------------------------------------

  predicate KeyLess(a: Key, b: Key) {
    Less(a.date, b.date) || (a.date == b.date && a.suffix < b.suffix)
  }

  lemma KeyOrder(a: Key, b: Key, c: Key)
    ensures !KeyLess(a, a)
    ensures KeyLess(a, b) && KeyLess(b, c) ==> KeyLess(a, c)
    ensures KeyLess(a, b) || a == b || KeyLess(b, a)
    ensures !KeyLess(b, a) && KeyLess(b, c) ==> KeyLess(a, c)
    ensures KeyLess(a, b) && !KeyLess(c, b) ==> KeyLess(a, c)
  {
    LessIrreflexive(a.date);
    LessTotal(a.date, b.date);
    LessTotal(b.date, c.date);
    if Less(a.date, b.date) && Less(b.date, c.date) { LessTransitive(a.date, b.date, c.date); }
    if Less(a.date, b.date) && Less(b.date, a.date) { LessTransitive(a.date, b.date, a.date); }
  }

  /** `name` is a summary file and no summary file has a greater key. */
  ghost predicate IsLatest(names: set<string>, name: string) {
    && name in names
    && ParseFilename(name).Some?
    && forall other | other in names && ParseFilename(other).Some? ::
         !KeyLess(ParseFilename(name).value, ParseFilename(other).value)
  }

  ghost predicate NoSummary(names: set<string>) {
    forall name | name in names :: ParseFilename(name).None?
  }

  /** The scan of the folder, in whatever order it is listed. */
  method FindLatest(listing: seq<string>) returns (best: Option<string>)
    ensures best.None? ==> NoSummary((set n | n in listing))
    ensures best.Some? ==> IsLatest((set n | n in listing), best.value)
  {
    best := None;
    var i := 0;
    while i < |listing|
      invariant 0 <= i <= |listing|
      invariant best.None? ==> forall j | 0 <= j < i :: ParseFilename(listing[j]).None?
      invariant best.Some? ==> best.value in listing && ParseFilename(best.value).Some?
      invariant best.Some? ==> forall j | 0 <= j < i && ParseFilename(listing[j]).Some? ::
                    !KeyLess(ParseFilename(best.value).value, ParseFilename(listing[j]).value)
    {
      var key := ParseFilename(listing[i]);
      if key.Some? {
        if best.None? {
          best := Some(listing[i]);
          KeyOrder(key.value, key.value, key.value);
        } else {
          var k := ParseFilename(best.value).value;
          if KeyLess(k, key.value) {
            forall j | 0 <= j < i && ParseFilename(listing[j]).Some?
              ensures !KeyLess(key.value, ParseFilename(listing[j]).value)
            {
              KeyOrder(k, key.value, ParseFilename(listing[j]).value);
            }
            KeyOrder(key.value, key.value, key.value);
            best := Some(listing[i]);
          }
        }
      }
      i := i + 1;
    }
  }

  /** The suffix after `key` on the day `today`; it saturates. */
  function NextSuffix(key: Key, today: string): nat {
    if key.date != today then 1 else if key.suffix == U32_MAX then U32_MAX else key.suffix + 1
  }

  /** The file a rollover goes to. */
  function NextFilename(current: string, today: string): string {
    match ParseFilename(current)
    case None => FileName(today, 1)
    case Some(key) => FileName(today, NextSuffix(key, today))
  }

  /** With no summary of today to go on from, that is the first of today. */
  lemma FirstOfToday(current: string, today: string)
    requires ParseFilename(current).Some? ==> ParseFilename(current).value.date != today
    ensures NextFilename(current, today) == today + "-01.md"
  {
    assert Decimal(1) == "1";
    assert today + (['-'] + "01") == today + "-01";
  }

  /** `name` may be chosen for the next write: the latest file while it has room, else the next one. */
  ghost predicate Chosen(folder: Folder, today: string, cap: nat, name: string) {
    || (NoSummary(folder.Keys) && name == FileName(today, 1))
    || (IsLatest(folder.Keys, name) && folder[name] < cap)
    || (exists full :: IsLatest(folder.Keys, full) && folder[full] >= cap && name == NextFilename(full, today))
  }

  /** A look at a folder: whether it opens, what is listed before the listing breaks off, and whether the size of the
      latest file can be read. */
  datatype View = View(opens: bool, listing: seq<string>, sized: bool)

  /** What the code gets to see of a folder. */
  function Seen(folder: Folder, view: View): Folder {
    if view.opens && view.sized then map n | n in folder && n in view.listing :: folder[n] else map[]
  }

  predicate SeesAll(folder: Folder, view: View) {
    view.opens && view.sized && forall n | n in folder :: n in view.listing
  }

  lemma AllSeen(folder: Folder, view: View)
    requires SeesAll(folder, view)
    ensures Seen(folder, view) == folder
  {}

  /** `current_synthesis_path` over any listing, complete or not. */
  method CurrentPath(folder: Folder, view: View, today: string, cap: nat) returns (name: string)
    requires forall i | 0 <= i < |view.listing| :: view.listing[i] in folder
    ensures Chosen(Seen(folder, view), today, cap, name)
    ensures SeesAll(folder, view) ==> Chosen(folder, today, cap, name)
    ensures !view.opens || !view.sized ==> name == FileName(today, 1)
  {
    ghost var seen := Seen(folder, view);
    if SeesAll(folder, view) { AllSeen(folder, view); }
    if !view.opens {
      assert NoSummary(seen.Keys);
      return FileName(today, 1);
    }
    var latest := FindLatest(view.listing);
    if latest.None? || !view.sized {
      assert view.sized ==> seen.Keys == set n | n in view.listing;
      assert NoSummary(seen.Keys);
      return FileName(today, 1);
    }
    assert seen.Keys == set n | n in view.listing;
    if folder[latest.value] < cap {
      name := latest.value;
    } else {
      name := NextFilename(latest.value, today);
    }
  }

  // ---------------------------------------------------------------------------
  // Rollover
  // ---------------------------------------------------------------------------

  /** `name` comes after every summary file of the folder. */
  ghost predicate Newest(names: set<string>, name: string) {
    && ParseFilename(name).Some?
    && forall other | other in names && ParseFilename(other).Some? ::
         KeyLess(ParseFilename(other).value, ParseFilename(name).value)
  }

  lemma BeyondLatest(names: set<string>, full: string, target: string)
    requires IsLatest(names, full) && ParseFilename(target).Some?
    ensures Newest(names, target) <==> KeyLess(ParseFilename(full).value, ParseFilename(target).value)
  {
    var key, k := ParseFilename(full).value, ParseFilename(target).value;
    if KeyLess(key, k) {
      forall other | other in names && ParseFilename(other).Some?
        ensures KeyLess(ParseFilename(other).value, k)
      {
        KeyOrder(ParseFilename(other).value, key, k);
      }
    }
  }

  /** A rollover target is newer than everything in the folder exactly when the clock has not gone
      back behind the latest file and the suffix can still grow. */
  lemma RolloverIsNewestIff(names: set<string>, full: string, today: Date)
    requires ValidDate(today) && IsLatest(names, full)
    ensures var key := ParseFilename(full).value;
            Newest(names, NextFilename(full, DateText(today)))
            <==> Less(key.date, DateText(today)) || (key.date == DateText(today) && key.suffix < U32_MAX)
  {
    var key, t := ParseFilename(full).value, DateText(today);
    var target := NextFilename(full, t);
    var suffix := NextSuffix(key, t);
    FileNameRoundTrip(today, suffix);
    assert ParseFilename(target) == Some(Key(t, suffix));
    BeyondLatest(names, full, target);
    SuffixBound(full);
    LessIrreflexive(t);
  }

  /** A file added to a folder is the latest then exactly if none before was later. */
  lemma AddedIsLatestIff(names: set<string>, late: string, name: string)
    requires IsLatest(names, late) && ParseFilename(name).Some?
    ensures IsLatest(names + {name}, name) <==> !KeyLess(ParseFilename(name).value, ParseFilename(late).value)
  {
    var k, key := ParseFilename(name).value, ParseFilename(late).value;
    KeyOrder(k, k, k);
    if !KeyLess(k, key) {
      forall other | other in names && ParseFilename(other).Some?
        ensures !KeyLess(k, ParseFilename(other).value)
      {
        KeyOrder(k, ParseFilename(other).value, key);
      }
    } else {
      assert late in names + {name};
    }
  }

  lemma NextKey(full: string, today: Date)
    requires ValidDate(today) && ParseFilename(full).Some?
    ensures var t := DateText(today);
            ParseFilename(NextFilename(full, t)) == Some(Key(t, NextSuffix(ParseFilename(full).value, t)))
  {
    SuffixBound(full);
    FileNameRoundTrip(today, NextSuffix(ParseFilename(full).value, DateText(today)));
  }

  /** Once written, a rollover target is the latest file exactly when the clock has not gone back, even with the suffix
      exhausted. */
  lemma RolloverIsLatestIff(names: set<string>, full: string, today: Date)
    requires ValidDate(today) && IsLatest(names, full)
    ensures var target := NextFilename(full, DateText(today));
            IsLatest(names + {target}, target) <==> !Less(DateText(today), ParseFilename(full).value.date)
  {
    NextKey(full, today);
    SuffixBound(full);
    AddedIsLatestIff(names, full, NextFilename(full, DateText(today)));
    LessIrreflexive(DateText(today));
  }

  /** While the clock has not gone back and the suffix can grow, a rollover goes to the first file of today that is
      newer than all there are. */
  lemma RolloverIsFirstNewer(names: set<string>, full: string, today: Date)
    requires ValidDate(today) && IsLatest(names, full)
    requires var key := ParseFilename(full).value;
             Less(key.date, DateText(today)) || (key.date == DateText(today) && key.suffix < U32_MAX)
    ensures exists n :: 1 <= n <= U32_MAX && NextFilename(full, DateText(today)) == FileName(DateText(today), n)
                        && Newest(names, FileName(DateText(today), n))
                        && forall m | 1 <= m < n :: !Newest(names, FileName(DateText(today), m))
  {
    var key, t := ParseFilename(full).value, DateText(today);
    var n := NextSuffix(key, t);
    RolloverIsNewestIff(names, full, today);
    forall m | 1 <= m < n
      ensures !Newest(names, FileName(t, m))
    {
      FileNameRoundTrip(today, m);
      BeyondLatest(names, full, FileName(t, m));
      LessIrreflexive(t);
    }
    assert NextFilename(full, t) == FileName(t, n) && Newest(names, FileName(t, n));
  }

  lemma SuffixBound(name: string)
    ensures ParseFilename(name).Some? ==> ParseFilename(name).value.suffix <= U32_MAX
  {}

  lemma NewestIsFresh(names: set<string>, name: string)
    requires Newest(names, name)
    ensures name !in names && IsLatest(names + {name}, name)
  {
    var k := ParseFilename(name).value;
    KeyOrder(k, k, k);
    forall other | other in names && ParseFilename(other).Some?
      ensures !KeyLess(k, ParseFilename(other).value)
    {
      KeyOrder(k, ParseFilename(other).value, k);
    }
  }

  // ---------------------------------------------------------------------------
  // One summary written
  // ---------------------------------------------------------------------------

  /** A summary file written: the day, the name chosen and the size. */
  datatype Stored = Stored(today: Date, name: string, size: nat)

  function AfterStored(folder: Folder, c: Stored): Folder {
    folder[c.name := c.size]
  }

  /** A name the service itself prints: dated `today` at the latest, with a suffix of at least 1. */
  ghost predicate Printed(name: string, today: Date) {
    exists d: Date, n: nat :: ValidDate(d) && !Before(today, d) && 1 <= n <= U32_MAX && name == FileName(DateText(d), n)
  }

  ghost predicate Tidy(folder: Folder, today: Date) {
    forall name | name in folder :: Printed(name, today)
  }

  lemma PrintedKey(name: string, today: Date) returns (d: Date, n: nat)
    requires Printed(name, today) && ValidDate(today)
    ensures ValidDate(d) && !Before(today, d) && 1 <= n <= U32_MAX && name == FileName(DateText(d), n)
    ensures ParseFilename(name) == Some(Key(DateText(d), n))
    ensures Less(DateText(d), DateText(today)) || DateText(d) == DateText(today)
  {
    d, n :| ValidDate(d) && !Before(today, d) && 1 <= n <= U32_MAX && name == FileName(DateText(d), n);
    FileNameRoundTrip(d, n);
    DateOrder(today, d);
    LessTotal(DateText(d), DateText(today));
  }

  /** In a tidy folder the latest file does not depend on the order of the listing. */
  lemma LatestUnique(folder: Folder, today: Date, a: string, b: string)
    requires ValidDate(today) && Tidy(folder, today)
    requires IsLatest(folder.Keys, a) && IsLatest(folder.Keys, b)
    ensures a == b
  {
    var d, n := PrintedKey(a, today);
    var e, m := PrintedKey(b, today);
    KeyOrder(Key(DateText(d), n), Key(DateText(e), m), Key(DateText(d), n));
  }

  /** The latest file is full, of today, and its suffix can no longer grow. */
  ghost predicate Saturated(folder: Folder, today: Date, cap: nat) {
    exists full :: IsLatest(folder.Keys, full) && folder[full] >= cap
                   && ParseFilename(full) == Some(Key(DateText(today), U32_MAX))
  }

  /** Nothing full is overwritten, and the file just written is the latest. */
  ghost predicate GoodWrite(before: Folder, c: Stored, cap: nat) {
    && (c.name in before ==> before[c.name] < cap && IsLatest(before.Keys, c.name))
    && IsLatest(AfterStored(before, c).Keys, c.name)
  }

  lemma FirstIsGood(before: Folder, c: Stored, cap: nat)
    requires ValidDate(c.today) && Tidy(before, c.today)
    requires NoSummary(before.Keys) && c.name == FileName(DateText(c.today), 1)
    ensures GoodWrite(before, c, cap) && Tidy(AfterStored(before, c), c.today)
  {
    FileNameRoundTrip(c.today, 1);
    NewestIsFresh(before.Keys, c.name);
    KeysAfter(before, c);
    AddedTidy(before, c, 1);
  }

  lemma SameFileIsGood(before: Folder, c: Stored, cap: nat)
    requires ValidDate(c.today) && Tidy(before, c.today)
    requires IsLatest(before.Keys, c.name) && before[c.name] < cap
    ensures GoodWrite(before, c, cap) && Tidy(AfterStored(before, c), c.today)
  {
    KeysAfter(before, c);
    assert before.Keys + {c.name} == before.Keys;
  }

  lemma RolloverIsGood(before: Folder, c: Stored, cap: nat, full: string)
    requires ValidDate(c.today) && Tidy(before, c.today)
    requires IsLatest(before.Keys, full) && c.name == NextFilename(full, DateText(c.today))
    requires ParseFilename(full) != Some(Key(DateText(c.today), U32_MAX))
    ensures GoodWrite(before, c, cap) && Tidy(AfterStored(before, c), c.today)
  {
    var d, n := PrintedKey(full, c.today);
    RolloverIsNewestIff(before.Keys, full, c.today);
    NewestIsFresh(before.Keys, c.name);
    KeysAfter(before, c);
    AddedTidy(before, c, if DateText(d) == DateText(c.today) then n + 1 else 1);
  }

  lemma SaturatedOverwrites(before: Folder, c: Stored, cap: nat, full: string)
    requires ValidDate(c.today) && Tidy(before, c.today)
    requires IsLatest(before.Keys, full) && before[full] >= cap && c.name == NextFilename(full, DateText(c.today))
    requires ParseFilename(full) == Some(Key(DateText(c.today), U32_MAX))
    ensures !GoodWrite(before, c, cap) && Tidy(AfterStored(before, c), c.today)
  {
    var d, n := PrintedKey(full, c.today);
    assert c.name == full;
    KeysAfter(before, c);
    assert before.Keys + {c.name} == before.Keys;
  }

  lemma KeysAfter(before: Folder, c: Stored)
    ensures AfterStored(before, c).Keys == before.Keys + {c.name}
  {}

  /** A write goes well exactly when the suffix is not exhausted; the folder stays tidy either way. */
  lemma WriteIsGoodIff(before: Folder, c: Stored, cap: nat)
    requires ValidDate(c.today) && Tidy(before, c.today)
    requires Chosen(before, DateText(c.today), cap, c.name)
    ensures GoodWrite(before, c, cap) <==> !Saturated(before, c.today, cap)
    ensures Tidy(AfterStored(before, c), c.today)
  {
    if NoSummary(before.Keys) && c.name == FileName(DateText(c.today), 1) {
      FirstIsGood(before, c, cap);
    } else if IsLatest(before.Keys, c.name) && before[c.name] < cap {
      SameFileIsGood(before, c, cap);
      OnlyLatest(before, c.today, c.name, cap);
    } else {
      var full :| IsLatest(before.Keys, full) && before[full] >= cap && c.name == NextFilename(full, DateText(c.today));
      OnlyLatest(before, c.today, full, cap);
      if ParseFilename(full) == Some(Key(DateText(c.today), U32_MAX)) {
        SaturatedOverwrites(before, c, cap, full);
      } else {
        RolloverIsGood(before, c, cap, full);
      }
    }
  }

  lemma OnlyLatest(folder: Folder, today: Date, name: string, cap: nat)
    requires ValidDate(today) && Tidy(folder, today) && IsLatest(folder.Keys, name)
    ensures Saturated(folder, today, cap)
            <==> folder[name] >= cap && ParseFilename(name) == Some(Key(DateText(today), U32_MAX))
  {
    if Saturated(folder, today, cap) {
      var full :| IsLatest(folder.Keys, full) && folder[full] >= cap
                  && ParseFilename(full) == Some(Key(DateText(today), U32_MAX));
      LatestUnique(folder, today, full, name);
    }
  }

  lemma StillPrinted(name: string, earlier: Date, later: Date)
    requires Printed(name, earlier) && !Before(later, earlier)
    ensures Printed(name, later)
  {
    var d: Date, n: nat :| ValidDate(d) && !Before(earlier, d) && 1 <= n <= U32_MAX && name == FileName(DateText(d), n);
    assert !Before(later, d);
  }

  lemma StillTidy(folder: Folder, earlier: Date, later: Date)
    requires Tidy(folder, earlier) && !Before(later, earlier)
    ensures Tidy(folder, later)
  {
    forall name | name in folder
      ensures Printed(name, later)
    {
      StillPrinted(name, earlier, later);
    }
  }

  lemma AddedTidy(before: Folder, c: Stored, suffix: nat)
    requires Tidy(before, c.today) && ValidDate(c.today)
    requires 1 <= suffix <= U32_MAX && c.name == FileName(DateText(c.today), suffix)
    ensures Tidy(AfterStored(before, c), c.today)
  {
    assert !Before(c.today, c.today);
    assert Printed(c.name, c.today);
  }

  // ---------------------------------------------------------------------------
  // Whole runs
  // ---------------------------------------------------------------------------

  /** How the storage write of a cycle ends: complete, or leaving a temporary file or nothing. */
  datatype Written = Complete(size: nat) | Temporary(size: nat) | Untouched

  datatype Cycle = Cycle(today: Date, name: string, written: Written)

  /** The write goes through the temporary sibling of the name chosen. */
  function AfterCycle(folder: Folder, c: Cycle): Folder {
    match c.written
    case Complete(size) => AfterStored(folder - {FileStorage.TmpName(c.name)}, Stored(c.today, c.name, size))
    case Temporary(size) => folder[FileStorage.TmpName(c.name) := size]
    case Untouched => folder
  }

  /** The summary files of a folder, without temporary files and whatever else lies there. */
  function Summaries(folder: Folder): Folder {
    map name | name in folder && ParseFilename(name).Some? :: folder[name]
  }

  /** A complete write replaces nothing full and is the latest file then; any other changes no summary file. */
  ghost predicate GoodCycle(before: Folder, c: Cycle, cap: nat) {
    if c.written.Complete? then
      && (c.name in before ==> before[c.name] < cap && IsLatest(before.Keys, c.name))
      && IsLatest(AfterCycle(before, c).Keys, c.name)
    else Summaries(AfterCycle(before, c)) == Summaries(before)
  }

  lemma LatestPart(folder: Folder, name: string)
    ensures IsLatest(folder.Keys, name) <==> IsLatest(Summaries(folder).Keys, name)
  {}

  lemma NonePart(folder: Folder)
    ensures NoSummary(folder.Keys) ==> NoSummary(Summaries(folder).Keys)
  {}

  lemma ChosenPart(folder: Folder, today: string, cap: nat, name: string)
    requires Chosen(folder, today, cap, name)
    ensures Chosen(Summaries(folder), today, cap, name)
  {
    if NoSummary(folder.Keys) && name == FileName(today, 1) {
      NonePart(folder);
    } else if IsLatest(folder.Keys, name) && folder[name] < cap {
      LatestPart(folder, name);
    } else {
      var full :| IsLatest(folder.Keys, full) && folder[full] >= cap && name == NextFilename(full, today);
      LatestPart(folder, full);
    }
  }

  lemma SaturatedPart(folder: Folder, today: Date, cap: nat)
    ensures Saturated(folder, today, cap) <==> Saturated(Summaries(folder), today, cap)
  {
    var part := Summaries(folder);
    if full :| IsLatest(folder.Keys, full) && folder[full] >= cap &&
               ParseFilename(full) == Some(Key(DateText(today), U32_MAX)) {
      LatestPart(folder, full);
      assert part[full] == folder[full];
    }
    if full :| IsLatest(part.Keys, full) && part[full] >= cap &&
               ParseFilename(full) == Some(Key(DateText(today), U32_MAX)) {
      LatestPart(folder, full);
    }
  }

  lemma TmpIsNoSummary(name: string)
    ensures ParseFilename(FileStorage.TmpName(name)).None?
  {
    var tmp := FileStorage.TmpName(name);
    FileStorage.TmpNameEnd(name);
    if |tmp| >= 3 {
      assert tmp[|tmp| - 3..][2] == tmp[|tmp| - 1];
      assert ".md"[2] == 'd';
    }
  }

  lemma CompletePart(folder: Folder, tmp: string, name: string, size: nat)
    requires ParseFilename(tmp).None? && ParseFilename(name).Some?
    ensures Summaries((folder - {tmp})[name := size]) == Summaries(folder)[name := size]
  {}

  lemma TemporaryPart(folder: Folder, tmp: string, size: nat)
    requires ParseFilename(tmp).None?
    ensures Summaries(folder[tmp := size]) == Summaries(folder)
  {}

  /** The temporary sibling never is a summary file, so only a complete write changes these. */
  lemma AfterPart(folder: Folder, c: Cycle)
    requires ParseFilename(c.name).Some?
    ensures Summaries(AfterCycle(folder, c))
            == if c.written.Complete? then AfterStored(Summaries(folder), Stored(c.today, c.name, c.written.size))
               else Summaries(folder)
  {
    var tmp := FileStorage.TmpName(c.name);
    TmpIsNoSummary(c.name);
    match c.written
    case Complete(size) => CompletePart(folder, tmp, c.name, size);
    case Temporary(size) => TemporaryPart(folder, tmp, size);
    case Untouched =>
  }

  /** A cycle goes well exactly unless it completes with the suffix exhausted; the folder stays tidy either way. */
  lemma CycleIsGoodIff(before: Folder, c: Cycle, cap: nat)
    requires ValidDate(c.today) && Tidy(Summaries(before), c.today)
    requires Chosen(before, DateText(c.today), cap, c.name)
    ensures GoodCycle(before, c, cap) <==> (c.written.Complete? ==> !Saturated(before, c.today, cap))
    ensures Tidy(Summaries(AfterCycle(before, c)), c.today)
  {
    ChosenIsSummary(before, c.today, cap, c.name);
    AfterPart(before, c);
    if c.written.Complete? {
      var part, w := Summaries(before), Stored(c.today, c.name, c.written.size);
      ChosenPart(before, DateText(c.today), cap, c.name);
      SaturatedPart(before, c.today, cap);
      WriteIsGoodIff(part, w, cap);
      LatestPart(AfterCycle(before, c), c.name);
      LatestPart(before, c.name);
      assert c.name in before <==> c.name in part;
    }
  }

  lemma ChosenIsSummary(folder: Folder, today: Date, cap: nat, name: string)
    requires ValidDate(today) && Chosen(folder, DateText(today), cap, name)
    ensures ParseFilename(name).Some?
  {
    FileNameRoundTrip(today, 1);
    if full :| IsLatest(folder.Keys, full) && folder[full] >= cap && name == NextFilename(full, DateText(today)) {
      var key := ParseFilename(full).value;
      SuffixBound(full);
      FileNameRoundTrip(today, NextSuffix(key, DateText(today)));
    }
  }

  /** The folder after the first `k` cycles, empty at first. */
  function AfterCycles(cycles: seq<Cycle>, k: nat): Folder
    requires k <= |cycles|
  {
    if k == 0 then map[] else AfterCycle(AfterCycles(cycles, k - 1), cycles[k - 1])
  }

  ghost predicate CycleFits(cycles: seq<Cycle>, cap: nat, i: nat)
    requires i < |cycles|
  {
    && ValidDate(cycles[i].today) && (i > 0 ==> !Before(cycles[i].today, cycles[i - 1].today))
    && Chosen(AfterCycles(cycles, i), DateText(cycles[i].today), cap, cycles[i].name)
  }

  /** In the first `n` cycles each name is one the code may choose, and the clock never goes back. */
  ghost predicate IsRun(cycles: seq<Cycle>, cap: nat, n: nat)
    requires n <= |cycles|
  {
    n == 0 || (IsRun(cycles, cap, n - 1) && CycleFits(cycles, cap, n - 1))
  }

  lemma CycleStaysTidy(before: Folder, c: Cycle, cap: nat, later: Date)
    requires ValidDate(c.today) && Tidy(Summaries(before), c.today) && Chosen(before, DateText(c.today), cap, c.name)
    requires !Before(later, c.today)
    ensures Tidy(Summaries(AfterCycle(before, c)), later)
  {
    CycleIsGoodIff(before, c, cap);
    StillTidy(Summaries(AfterCycle(before, c)), c.today, later);
  }

  lemma RunStaysTidy(cycles: seq<Cycle>, cap: nat, k: nat)
    requires k + 1 < |cycles| && CycleFits(cycles, cap, k) && CycleFits(cycles, cap, k + 1)
    requires Tidy(Summaries(AfterCycles(cycles, k)), cycles[k].today)
    ensures Tidy(Summaries(AfterCycles(cycles, k + 1)), cycles[k + 1].today)
  {
    CycleStaysTidy(AfterCycles(cycles, k), cycles[k], cap, cycles[k + 1].today);
  }

  lemma {:induction false} RunIsTidy(cycles: seq<Cycle>, cap: nat, k: nat)
    requires k < |cycles| && IsRun(cycles, cap, k + 1)
    ensures Tidy(Summaries(AfterCycles(cycles, k)), cycles[k].today)
  {
    if k > 0 {
      RunIsTidy(cycles, cap, k - 1);
      RunStaysTidy(cycles, cap, k - 1);
    }
  }

  /** In any run of cycles from an empty folder, failing writes included, exactly while the suffix is not exhausted:
      the file just written is the latest one, and a file at or above the size cap is never written again. */
  lemma EveryCycleIsGood(cycles: seq<Cycle>, cap: nat, k: nat)
    requires k < |cycles| && IsRun(cycles, cap, k + 1)
    ensures GoodCycle(AfterCycles(cycles, k), cycles[k], cap)
            <==> (cycles[k].written.Complete? ==> !Saturated(AfterCycles(cycles, k), cycles[k].today, cap))
  {
    RunIsTidy(cycles, cap, k);
    CycleIsGoodIff(AfterCycles(cycles, k), cycles[k], cap);
  }

  // ---------------------------------------------------------------------------
  // When a full file is written again
  // ---------------------------------------------------------------------------

  /** No day is later: names printed up to then are all names ever printed. */
  const LAST_DAY: Date := Date(9999, 12, 31)

  /** The latest file is of today with its suffix exhausted, or of a later day while today's first file is full. */
  predicate FullAgain(folder: Folder, full: string, today: Date, cap: nat)
    requires ParseFilename(full).Some?
  {
    var key, t := ParseFilename(full).value, DateText(today);
    || (key.date == t && key.suffix == U32_MAX)
    || (Less(t, key.date) && FileName(t, 1) in folder && folder[FileName(t, 1)] >= cap)
  }

  lemma AdvancedIsFree(folder: Folder, full: string, today: Date)
    requires ValidDate(today) && IsLatest(folder.Keys, full)
    requires var key := ParseFilename(full).value;
             Less(key.date, DateText(today)) || (key.date == DateText(today) && key.suffix < U32_MAX)
    ensures NextFilename(full, DateText(today)) !in folder
  {
    RolloverIsNewestIff(folder.Keys, full, today);
    NewestIsFresh(folder.Keys, NextFilename(full, DateText(today)));
  }

  lemma ExhaustedIsItself(full: string, last: Date)
    requires Printed(full, last) && ValidDate(last)
    ensures ParseFilename(full).Some?
    ensures var key := ParseFilename(full).value; key.suffix == U32_MAX ==> NextFilename(full, key.date) == full
  {
    var d, n := PrintedKey(full, last);
  }

  lemma SummaryIsPrinted(folder: Folder, name: string)
    requires Tidy(Summaries(folder), LAST_DAY) && name in folder && ParseFilename(name).Some?
    ensures Printed(name, LAST_DAY)
  {
    assert name in Summaries(folder);
  }

  lemma NotBoth(a: string, b: string)
    ensures !(Less(a, b) && Less(b, a)) && !(Less(a, b) && a == b)
  {
    LessIrreflexive(a);
    if Less(a, b) && Less(b, a) { LessTransitive(a, b, a); }
  }

  /** When the latest file has a printed name, whatever its date, a rollover hits a full file exactly then. */
  lemma RolloverOverwritesIff(folder: Folder, full: string, today: Date, cap: nat)
    requires ValidDate(today) && Printed(full, LAST_DAY)
    requires IsLatest(folder.Keys, full) && folder[full] >= cap
    ensures var target := NextFilename(full, DateText(today));
            target in folder && folder[target] >= cap <==> FullAgain(folder, full, today, cap)
  {
    ExhaustedIsItself(full, LAST_DAY);
    var key, t := ParseFilename(full).value, DateText(today);
    LessTotal(key.date, t);
    NotBoth(key.date, t);
    NotBoth(t, key.date);
    if Less(key.date, t) || (key.date == t && key.suffix < U32_MAX) {
      AdvancedIsFree(folder, full, today);
    } else if key.date == t {
      SuffixBound(full);
    }
  }

  predicate IsFull(folder: Folder, name: string, cap: nat) {
    name in folder && folder[name] >= cap
  }

  /** What is seen of the folder leaves no choice but a full file. */
  ghost predicate MustOverwrite(folder: Folder, seen: Folder, today: string, cap: nat) {
    || (NoSummary(seen.Keys) && IsFull(folder, FileName(today, 1), cap))
    || exists full :: IsLatest(seen.Keys, full) && seen[full] >= cap && IsFull(folder, NextFilename(full, today), cap)
  }

  /** The latest file is full and a rollover from it hits a full file. */
  ghost predicate LatestFullAgain(folder: Folder, today: Date, cap: nat) {
    exists full :: IsLatest(folder.Keys, full) && folder[full] >= cap && FullAgain(folder, full, today, cap)
  }

  ghost predicate OverwritesFull(before: Folder, c: Cycle, cap: nat) {
    c.written.Complete? && IsFull(before, c.name, cap)
  }

  lemma OnlyOneLatest(folder: Folder, a: string, b: string)
    requires Tidy(Summaries(folder), LAST_DAY) && IsLatest(folder.Keys, a) && IsLatest(folder.Keys, b)
    ensures a == b
  {
    LatestPart(folder, a);
    LatestPart(folder, b);
    LatestUnique(Summaries(folder), LAST_DAY, a, b);
  }

  ghost predicate IsPart(seen: Folder, folder: Folder) {
    forall n | n in seen :: n in folder && seen[n] == folder[n]
  }

  lemma PartIsTidy(folder: Folder, seen: Folder, today: Date)
    requires Tidy(Summaries(folder), today) && IsPart(seen, folder)
    ensures Tidy(Summaries(seen), today)
  {
    forall n | n in Summaries(seen)
      ensures Printed(n, today)
    {
      assert n in Summaries(folder);
    }
  }

  lemma NoneLatest(names: set<string>, name: string)
    requires IsLatest(names, name)
    ensures !NoSummary(names)
  {}

  /** Whatever part of the folder is seen, the file chosen from it is a full one exactly if nothing else can be. */
  lemma CycleOverwritesIff(before: Folder, seen: Folder, c: Cycle, cap: nat)
    requires ValidDate(c.today) && Tidy(Summaries(before), LAST_DAY) && IsPart(seen, before)
    requires Chosen(seen, DateText(c.today), cap, c.name)
    ensures OverwritesFull(before, c, cap)
            <==> c.written.Complete? && MustOverwrite(before, seen, DateText(c.today), cap)
  {
    if latest :| IsLatest(seen.Keys, latest) {
      PartIsTidy(before, seen, LAST_DAY);
      NoneLatest(seen.Keys, latest);
      forall full | IsLatest(seen.Keys, full)
        ensures full == latest
      {
        OnlyOneLatest(seen, full, latest);
      }
    }
  }

  /** Where all is seen: the latest file is full and of today with its suffix exhausted, or of a later day while the
      first file of today is full. */
  lemma AllSeenOverwritesIff(folder: Folder, today: Date, cap: nat)
    requires ValidDate(today) && Tidy(Summaries(folder), LAST_DAY)
    ensures MustOverwrite(folder, folder, DateText(today), cap) <==> LatestFullAgain(folder, today, cap)
  {
    var t := DateText(today);
    FileNameRoundTrip(today, 1);
    forall full | IsLatest(folder.Keys, full) && folder[full] >= cap
      ensures IsFull(folder, NextFilename(full, t), cap) <==> FullAgain(folder, full, today, cap)
    {
      SummaryIsPrinted(folder, full);
      RolloverOverwritesIff(folder, full, today, cap);
    }
  }

  // ---------------------------------------------------------------------------
  // When the file written is not the one read next
  // ---------------------------------------------------------------------------

  lemma OneMore(names: set<string>, latest: string, name: string) returns (late: string)
    requires IsLatest(names, latest) && ParseFilename(name).Some?
    ensures IsLatest(names + {name}, late)
  {
    var k, key := ParseFilename(name).value, ParseFilename(latest).value;
    KeyOrder(k, key, k);
    AddedIsLatestIff(names, latest, name);
    late := if KeyLess(k, key) then latest else name;
  }

  lemma OnlySummary(others: set<string>, name: string)
    requires NoSummary(others) && ParseFilename(name).Some?
    ensures IsLatest(others + {name}, name)
  {
    var k := ParseFilename(name).value;
    KeyOrder(k, k, k);
  }

  lemma {:induction false} LatestExists(names: set<string>) returns (late: string)
    requires !NoSummary(names)
    ensures IsLatest(names, late)
  {
    var name :| name in names && ParseFilename(name).Some?;
    var rest := names - {name};
    assert rest + {name} == names;
    if NoSummary(rest) {
      OnlySummary(rest, name);
      late := name;
    } else {
      var latest := LatestExists(rest);
      late := OneMore(rest, latest, name);
    }
  }

  /** The latest file stored stays later than the one chosen: not all is seen and that file is not, or the clock is
      behind it. */
  ghost predicate StaysBehind(folder: Folder, seen: Folder, today: string, cap: nat) {
    exists late :: IsLatest(folder.Keys, late) && BehindLatest(seen, today, cap, late)
  }

  ghost predicate BehindLatest(seen: Folder, today: string, cap: nat, late: string)
    requires ParseFilename(late).Some?
  {
    var key := ParseFilename(late).value;
    || (NoSummary(seen.Keys) && KeyLess(Key(today, 1), key))
    || exists s :: IsLatest(seen.Keys, s) &&
                   if seen[s] < cap then s != late
                   else KeyLess(Key(today, NextSuffix(ParseFilename(s).value, today)), key)
  }

  lemma SameSummaries(names: set<string>, others: set<string>, name: string)
    requires forall n :: ParseFilename(n).Some? ==> (n in names <==> n in others)
    ensures IsLatest(names, name) <==> IsLatest(others, name)
  {}

  lemma WrittenIsLatestIff(before: Folder, c: Cycle)
    requires c.written.Complete? && ParseFilename(c.name).Some?
    ensures IsLatest(AfterCycle(before, c).Keys, c.name) <==> IsLatest(before.Keys + {c.name}, c.name)
  {
    TmpIsNoSummary(c.name);
    SameSummaries(AfterCycle(before, c).Keys, before.Keys + {c.name}, c.name);
  }

  lemma ChosenBehindIff(folder: Folder, seen: Folder, today: Date, cap: nat, name: string, late: string)
    requires ValidDate(today) && Tidy(Summaries(folder), LAST_DAY) && IsPart(seen, folder)
    requires IsLatest(folder.Keys, late) && Chosen(seen, DateText(today), cap, name)
    ensures ParseFilename(name).Some?
    ensures KeyLess(ParseFilename(name).value, ParseFilename(late).value)
            <==> BehindLatest(seen, DateText(today), cap, late)
  {
    FileNameRoundTrip(today, 1);
    if latest :| IsLatest(seen.Keys, latest) {
      PartIsTidy(folder, seen, LAST_DAY);
      NoneLatest(seen.Keys, latest);
      forall s | IsLatest(seen.Keys, s)
        ensures s == latest
      {
        OnlyOneLatest(seen, s, latest);
      }
      NextKey(latest, today);
      LaterIsOther(folder, latest, late);
    }
  }

  lemma LaterIsOther(folder: Folder, name: string, late: string)
    requires Tidy(Summaries(folder), LAST_DAY) && IsLatest(folder.Keys, late)
    requires name in folder && ParseFilename(name).Some?
    ensures KeyLess(ParseFilename(name).value, ParseFilename(late).value) <==> name != late
  {
    var k, key := ParseFilename(name).value, ParseFilename(late).value;
    KeyOrder(k, key, k);
    if !KeyLess(k, key) {
      AddedIsLatestIff(folder.Keys, late, name);
      assert folder.Keys + {name} == folder.Keys;
      OnlyOneLatest(folder, name, late);
    }
  }

  /** The file a cycle has written is the one found latest next exactly unless the latest stays later. */
  lemma CycleIsReadNextIff(before: Folder, seen: Folder, c: Cycle, cap: nat)
    requires ValidDate(c.today) && Tidy(Summaries(before), LAST_DAY) && IsPart(seen, before)
    requires Chosen(seen, DateText(c.today), cap, c.name) && c.written.Complete?
    ensures IsLatest(AfterCycle(before, c).Keys, c.name) <==> !StaysBehind(before, seen, DateText(c.today), cap)
  {
    ChosenIsSummary(seen, c.today, cap, c.name);
    WrittenIsLatestIff(before, c);
    if NoSummary(before.Keys) {
      var k := ParseFilename(c.name).value;
      KeyOrder(k, k, k);
    } else {
      var latest := LatestExists(before.Keys);
      forall late | IsLatest(before.Keys, late)
        ensures late == latest
      {
        OnlyOneLatest(before, late, latest);
      }
      AddedIsLatestIff(before.Keys, latest, c.name);
      ChosenBehindIff(before, seen, c.today, cap, c.name, latest);
    }
  }

  /** The latest file is full and of a later day. */
  ghost predicate LatestIsAhead(folder: Folder, today: string, cap: nat) {
    exists full :: IsLatest(folder.Keys, full) && folder[full] >= cap && Less(today, ParseFilename(full).value.date)
  }

  /** Where all is seen: exactly unless the latest file is full and of a later day. */
  lemma AllSeenBehindIff(folder: Folder, today: Date, cap: nat)
    requires ValidDate(today) && Tidy(Summaries(folder), LAST_DAY)
    ensures StaysBehind(folder, folder, DateText(today), cap) <==> LatestIsAhead(folder, DateText(today), cap)
  {
    var t := DateText(today);
    if latest :| IsLatest(folder.Keys, latest) {
      NoneLatest(folder.Keys, latest);
      forall full | IsLatest(folder.Keys, full)
        ensures full == latest
      {
        OnlyOneLatest(folder, full, latest);
      }
      AheadIff(folder, latest, t);
      assert BehindLatest(folder, t, cap, latest)
             <==> folder[latest] >= cap && Less(t, ParseFilename(latest).value.date);
    }
  }

  lemma AheadIff(folder: Folder, latest: string, today: string)
    requires ParseFilename(latest).Some?
    ensures var key := ParseFilename(latest).value;
            KeyLess(Key(today, NextSuffix(key, today)), key) <==> Less(today, key.date)
  {
    SuffixBound(latest);
    LessIrreflexive(today);
  }

  lemma AfterIsPrinted(before: Folder, c: Cycle, cap: nat, last: Date)
    requires ValidDate(c.today) && last == LAST_DAY && Tidy(Summaries(before), last)
    requires Chosen(before, DateText(c.today), cap, c.name)
    ensures Tidy(Summaries(AfterCycle(before, c)), last)
  {
    assert !Before(last, c.today);
    CycleStaysPrinted(before, before, c, cap, last);
  }

  /** Where all is seen, the latest file found after a write is the one written exactly unless the latest before was
      full and of a later day. */
  lemma WrittenIsFoundIff(before: Folder, c: Cycle, cap: nat, found: string)
    requires ValidDate(c.today) && Tidy(Summaries(before), LAST_DAY) && c.written.Complete?
    requires Chosen(before, DateText(c.today), cap, c.name) && IsLatest(AfterCycle(before, c).Keys, found)
    ensures found == c.name <==> !LatestIsAhead(before, DateText(c.today), cap)
  {
    CycleIsReadNextIff(before, before, c, cap);
    AllSeenBehindIff(before, c.today, cap);
    if IsLatest(AfterCycle(before, c).Keys, c.name) {
      AfterIsPrinted(before, c, cap, LAST_DAY);
      OnlyOneLatest(AfterCycle(before, c), found, c.name);
    }
  }

  // ---------------------------------------------------------------------------
  // Runs with any clock and any view
  // ---------------------------------------------------------------------------

  ghost predicate AnyCycleFits(cycles: seq<Cycle>, views: seq<View>, cap: nat, i: nat)
    requires i < |cycles| == |views|
  {
    && ValidDate(cycles[i].today)
    && Chosen(Seen(AfterCycles(cycles, i), views[i]), DateText(cycles[i].today), cap, cycles[i].name)
  }

  /** In the first `n` cycles each name is one the code may choose from what it sees; the clock may jump. */
  ghost predicate IsAnyRun(cycles: seq<Cycle>, views: seq<View>, cap: nat, n: nat)
    requires n <= |cycles| == |views|
  {
    n == 0 || (IsAnyRun(cycles, views, cap, n - 1) && AnyCycleFits(cycles, views, cap, n - 1))
  }

  lemma ChosenIsPrinted(folder: Folder, today: Date, cap: nat, name: string, last: Date)
    requires ValidDate(today) && !Before(last, today)
    requires Tidy(Summaries(folder), last) && Chosen(folder, DateText(today), cap, name)
    ensures Printed(name, last)
  {
    if IsLatest(folder.Keys, name) {
      assert name in Summaries(folder);
    } else if full :| IsLatest(folder.Keys, full) && name == NextFilename(full, DateText(today)) {
      SuffixBound(full);
      var suffix := NextSuffix(ParseFilename(full).value, DateText(today));
      assert 1 <= suffix <= U32_MAX && name == FileName(DateText(today), suffix);
    } else {
      assert name == FileName(DateText(today), 1);
    }
  }

  lemma CycleStaysPrinted(before: Folder, seen: Folder, c: Cycle, cap: nat, last: Date)
    requires ValidDate(c.today) && !Before(last, c.today) && IsPart(seen, before)
    requires Tidy(Summaries(before), last) && Chosen(seen, DateText(c.today), cap, c.name)
    ensures Tidy(Summaries(AfterCycle(before, c)), last)
  {
    PartIsTidy(before, seen, last);
    ChosenIsSummary(seen, c.today, cap, c.name);
    ChosenIsPrinted(seen, c.today, cap, c.name, last);
    AfterPart(before, c);
  }

  /** Whatever the clock does up to some last day, all summary files have names the code prints. */
  lemma {:induction false} AnyRunIsPrinted(cycles: seq<Cycle>, views: seq<View>, cap: nat, k: nat, last: Date)
    requires k <= |cycles| == |views| && IsAnyRun(cycles, views, cap, k)
    requires forall i | 0 <= i < k :: !Before(last, cycles[i].today)
    ensures Tidy(Summaries(AfterCycles(cycles, k)), last)
  {
    if k > 0 {
      var before, c := AfterCycles(cycles, k - 1), cycles[k - 1];
      AnyRunIsPrinted(cycles, views, cap, k - 1, last);
      assert AnyCycleFits(cycles, views, cap, k - 1);
      CycleStaysPrinted(before, Seen(before, views[k - 1]), c, cap, last);
    }
  }

  lemma {:induction false} RunDays(cycles: seq<Cycle>, views: seq<View>, cap: nat, k: nat)
    requires k <= |cycles| == |views| && IsAnyRun(cycles, views, cap, k)
    ensures forall i | 0 <= i < k :: !Before(LAST_DAY, cycles[i].today)
  {
    if k > 0 { RunDays(cycles, views, cap, k - 1); }
  }

  /** In any run from an empty folder, with any clock and whatever is seen of the folder, a cycle writes a full file
      again exactly if what it sees leaves no choice but a full file. When it sees all, that is if the latest file is
      full and either of today with its suffix exhausted, or of a later day while the first file of today is full. */
  lemma EveryCycleOverwritesIff(cycles: seq<Cycle>, views: seq<View>, cap: nat, k: nat)
    requires k < |cycles| == |views| && IsAnyRun(cycles, views, cap, k + 1)
    ensures var before, c := AfterCycles(cycles, k), cycles[k];
            && (OverwritesFull(before, c, cap)
                <==> c.written.Complete? && MustOverwrite(before, Seen(before, views[k]), DateText(c.today), cap))
            && (SeesAll(before, views[k]) ==>
                  (OverwritesFull(before, c, cap) <==> c.written.Complete? && LatestFullAgain(before, c.today, cap)))
  {
    var before, c := AfterCycles(cycles, k), cycles[k];
    RunDays(cycles, views, cap, k);
    AnyRunIsPrinted(cycles, views, cap, k, LAST_DAY);
    CycleOverwritesIff(before, Seen(before, views[k]), c, cap);
    if SeesAll(before, views[k]) {
      AllSeen(before, views[k]);
      AllSeenOverwritesIff(before, c.today, cap);
    }
  }

  /** In any such run the file a cycle has written is the latest one then, which is read next, exactly unless the
      latest before stays later; when the cycle sees all, exactly unless that is full and of a later day. */
  lemma EveryCycleIsReadNextIff(cycles: seq<Cycle>, views: seq<View>, cap: nat, k: nat)
    requires k < |cycles| == |views| && IsAnyRun(cycles, views, cap, k + 1) && cycles[k].written.Complete?
    ensures var before, c := AfterCycles(cycles, k), cycles[k];
            var isLatest := IsLatest(AfterCycle(before, c).Keys, c.name);
            && (isLatest <==> !StaysBehind(before, Seen(before, views[k]), DateText(c.today), cap))
            && (SeesAll(before, views[k]) ==> (isLatest <==> !LatestIsAhead(before, DateText(c.today), cap)))
  {
    var before, c := AfterCycles(cycles, k), cycles[k];
    RunDays(cycles, views, cap, k);
    AnyRunIsPrinted(cycles, views, cap, k, LAST_DAY);
    CycleIsReadNextIff(before, Seen(before, views[k]), c, cap);
    if SeesAll(before, views[k]) {
      AllSeen(before, views[k]);
      AllSeenBehindIff(before, c.today, cap);
    }
  }

  // ---------------------------------------------------------------------------
  // Keys against names
  // ---------------------------------------------------------------------------

  lemma TwoDigitsIsPad(n: nat)
    requires n <= 99
    ensures TwoDigits(n) == Pad(n, 2)
  {
    assert Pad(n, 2) == Pad(n / 10, 1) + [DigitChar(n % 10)];
    assert Pad(n / 10, 1) == Pad(n / 10 / 10, 0) + [DigitChar(n / 10 % 10)];
    if n < 10 {
      assert Decimal(n) == [DigitChar(n)];
    } else {
      assert Decimal(n) == Decimal(n / 10) + [DigitChar(n % 10)];
    }
  }

  lemma SuffixOrder(m: nat, n: nat)
    requires m <= 99 && n <= 99
    ensures Less(TwoDigits(m), TwoDigits(n)) <==> m < n
    ensures TwoDigits(m) == TwoDigits(n) <==> m == n
  {
    assert Pow10(2) == 100 by { assert Pow10(0) == 1 && Pow10(1) == 10; }
    TwoDigitsIsPad(m);
    TwoDigitsIsPad(n);
    PadOrder(m, n, 2);
  }

  /** Names with two-digit suffixes are ordered as their keys. */
  lemma ShortNamesOrder(d: Date, m: nat, e: Date, n: nat)
    requires m <= 99 && n <= 99
    ensures Less(FileName(DateText(d), m), FileName(DateText(e), n))
            <==> KeyLess(Key(DateText(d), m), Key(DateText(e), n))
  {
    var md, x, y := ".md", ['-'] + TwoDigits(m), ['-'] + TwoDigits(n);
    TwoDigitsIsPad(m);
    TwoDigitsIsPad(n);
    SuffixOrder(m, n);
    DashOrder(TwoDigits(m), TwoDigits(n));
    LessAppend(DateText(d), x, DateText(e), y);
    LessAppend(DateText(d) + x, md, DateText(e) + y, md);
    LessIrreflexive(md);
  }

  /** The pair of suffixes at which the two orders part. */
  lemma LongNameSortsBefore(date: string)
    ensures Less(FileName(date, 100), FileName(date, 99))
  {
    assert Decimal(100) == Decimal(10) + ['0'] && Decimal(10) == Decimal(1) + ['0'] && Decimal(1) == ['1'];
    assert Decimal(99) == Decimal(9) + ['9'] && Decimal(9) == ['9'];
    var x, y := ['1', '0', '0', '.', 'm', 'd'], ['9', '9', '.', 'm', 'd'];
    assert FileName(date, 100) == (date + ['-']) + x;
    assert FileName(date, 99) == (date + ['-']) + y;
    LessAppend(date + ['-'], x, date + ['-'], y);
    LessIrreflexive(date + ['-']);
  }

  ghost predicate NamesFollowSuffixes(d: Date, bound: nat) {
    forall m, n | 0 <= m <= bound && 0 <= n <= bound :: Less(FileName(DateText(d), m), FileName(DateText(d), n))
        <==> m < n
  }

  /** The names of one day sort by their suffixes exactly as long as these have two digits. */
  lemma NamesFollowSuffixesIff(d: Date, bound: nat)
    ensures NamesFollowSuffixes(d, bound) <==> bound <= 99
  {
    if bound <= 99 {
      forall m, n | 0 <= m <= bound && 0 <= n <= bound
        ensures Less(FileName(DateText(d), m), FileName(DateText(d), n)) <==> m < n
      {
        ShortNamesOrder(d, m, d, n);
        LessIrreflexive(DateText(d));
      }
    } else {
      var m, n := 100, 99;
      LongNameSortsBefore(DateText(d));
      assert Less(FileName(DateText(d), m), FileName(DateText(d), n));
    }
  }

  ghost predicate PrintedUpTo(name: string, bound: nat) {
    exists d: Date, n: nat :: ValidDate(d) && n <= bound && name == FileName(DateText(d), n)
  }

  /** The lexicographically greatest of some names. */
  ghost predicate IsGreatest(names: set<string>, name: string) {
    name in names && forall other | other in names :: !Less(name, other)
  }

  ghost predicate AllUpTo(names: set<string>, bound: nat) {
    forall name | name in names :: PrintedUpTo(name, bound)
  }

  /** Whatever the folder, its latest file is the one with the greatest name. */
  ghost predicate NamesDecide(bound: nat) {
    forall names, name | AllUpTo(names, bound) :: IsLatest(names, name) <==> IsGreatest(names, name)
  }

  lemma PrintedPairOrder(a: string, b: string)
    requires PrintedUpTo(a, 99) && PrintedUpTo(b, 99)
    ensures ParseFilename(a).Some? && ParseFilename(b).Some?
    ensures Less(a, b) <==> KeyLess(ParseFilename(a).value, ParseFilename(b).value)
  {
    var d: Date, m: nat :| ValidDate(d) && m <= 99 && a == FileName(DateText(d), m);
    var e: Date, n: nat :| ValidDate(e) && n <= 99 && b == FileName(DateText(e), n);
    FileNameRoundTrip(d, m);
    FileNameRoundTrip(e, n);
    ShortNamesOrder(d, m, e, n);
  }

  lemma StillUpTo(names: set<string>, bound: nat)
    requires AllUpTo(names, bound) && bound <= 99
    ensures AllUpTo(names, 99)
  {
    forall name | name in names
      ensures PrintedUpTo(name, 99)
    {
      var d: Date, n: nat :| ValidDate(d) && n <= bound && name == FileName(DateText(d), n);
      assert n <= 99;
    }
  }

  lemma ShortNamesDecide(names: set<string>, name: string)
    requires AllUpTo(names, 99)
    ensures IsLatest(names, name) <==> IsGreatest(names, name)
  {
    if name in names {
      forall other | other in names
        ensures ParseFilename(name).Some? && ParseFilename(other).Some?
        ensures Less(name, other) <==> KeyLess(ParseFilename(name).value, ParseFilename(other).value)
      {
        PrintedPairOrder(name, other);
      }
    }
  }

  /** The latest file by key is the one with the lexicographically greatest name, in every folder of printed names,
      exactly as long as no suffix exceeds 99. */
  lemma NamesDecideIff(bound: nat)
    requires bound <= U32_MAX
    ensures NamesDecide(bound) <==> bound <= 99
  {
    if bound <= 99 {
      forall names, name | AllUpTo(names, bound)
        ensures IsLatest(names, name) <==> IsGreatest(names, name)
      {
        StillUpTo(names, bound);
        ShortNamesDecide(names, name);
      }
    } else {
      var names, name := TwoFilesDiverge(LAST_DAY, bound);
      assert AllUpTo(names, bound) && IsGreatest(names, name) && !IsLatest(names, name);
    }
  }

  lemma Diverge(short: string, long: string)
    requires ParseFilename(short).Some? && ParseFilename(long).Some?
    requires KeyLess(ParseFilename(short).value, ParseFilename(long).value) && Less(long, short)
    ensures IsGreatest({short, long}, short) && !IsLatest({short, long}, short)
  {
    NotBoth(short, long);
    LessIrreflexive(short);
  }

  lemma NamesUpTo(d: Date, m: nat, n: nat, bound: nat)
    requires ValidDate(d) && m <= bound && n <= bound
    ensures AllUpTo({FileName(DateText(d), m), FileName(DateText(d), n)}, bound)
  {}

  lemma TwoFilesDiverge(d: Date, bound: nat) returns (names: set<string>, name: string)
    requires ValidDate(d) && 100 <= bound <= U32_MAX
    ensures AllUpTo(names, bound) && IsGreatest(names, name) && !IsLatest(names, name)
  {
    var m, n := 99, 100;
    names, name := {FileName(DateText(d), m), FileName(DateText(d), n)}, FileName(DateText(d), m);
    NamesUpTo(d, m, n, bound);
    FileNameRoundTrip(d, m);
    FileNameRoundTrip(d, n);
    LongNameSortsBefore(DateText(d));
    Diverge(FileName(DateText(d), m), FileName(DateText(d), n));
  }
}
