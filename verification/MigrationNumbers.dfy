/** `migrate create`: numbering and naming of new migration files. */
module MigrationNumbers {
  import opened Prelude

  const MAX_INT := 0x7FFF_FFFF_FFFF_FFFF

  // ---- Slugs ----

  predicate IsWordChar(c: char) {
    'a' <= c <= 'z' || '0' <= c <= '9'
  }

  /** Length of the leading run of characters a slug cannot hold. */
  function JunkRun(s: string): (n: nat)
    ensures n <= |s| && (n < |s| ==> IsWordChar(s[n]))
    ensures s != "" && !IsWordChar(s[0]) ==> n > 0
  {
    if s == "" || IsWordChar(s[0]) then 0 else 1 + JunkRun(s[1..])
  }

  /** Every run of other characters becomes one underscore. */
  function Sanitized(s: string): (r: string)
    ensures s != "" && IsWordChar(s[0]) ==> r != "" && r[0] == s[0]
    decreases |s|
  {
    if s == "" then ""
    else if IsWordChar(s[0]) then [s[0]] + Sanitized(s[1..])
    else "_" + Sanitized(s[JunkRun(s)..])
  }

  function TrimLeft(s: string): string {
    if s != "" && s[0] == '_' then TrimLeft(s[1..]) else s
  }

  function TrimRight(s: string): string {
    if s != "" && s[|s| - 1] == '_' then TrimRight(s[..|s| - 1]) else s
  }

  function Lowered(lower: char -> char, s: string): string {
    seq(|s|, i requires 0 <= i < |s| => lower(s[i]))
  }

  /** `lower` is what lower-casing makes of one character. */
  function Slug(lower: char -> char, name: string): string {
    TrimRight(TrimLeft(Sanitized(Lowered(lower, name))))
  }

  /** Words of lower-case letters and digits, separated by single underscores. */
  ghost predicate HasSingleUnderscores(s: string) {
    && (forall i | 0 <= i < |s| :: IsWordChar(s[i]) || s[i] == '_')
    && (forall i | 0 <= i < |s| - 1 :: !(s[i] == '_' && s[i + 1] == '_'))
  }

  ghost predicate IsSlug(s: string) {
    HasSingleUnderscores(s) && (s != "" ==> s[0] != '_' && s[|s| - 1] != '_')
  }

  lemma {:induction false} SanitizedHasSingleUnderscores(s: string)
    ensures HasSingleUnderscores(Sanitized(s))
    decreases |s|
  {
    if s != "" {
      var rest := if IsWordChar(s[0]) then s[1..] else s[JunkRun(s)..];
      SanitizedHasSingleUnderscores(rest);
    }
  }

  lemma {:induction false} TrimmedIsSlug(s: string)
    requires HasSingleUnderscores(s)
    ensures IsSlug(TrimRight(TrimLeft(s)))
  {
    var left := TrimLeft(s);
    if s != "" && s[0] == '_' {
      var rest := s[1..];
      if rest != "" {
        assert rest[0] == s[0 + 1];
        assert !(s[0] == '_' && s[0 + 1] == '_');
      }
      assert TrimLeft(rest) == rest;
    }
    assert HasSingleUnderscores(left) && (left != "" ==> left[0] != '_');
    if left != "" && left[|left| - 1] == '_' {
      var shorter := left[..|left| - 1];
      assert HasSingleUnderscores(shorter) && shorter[0] != '_' && shorter[|shorter| - 1] != '_';
      assert TrimRight(left) == shorter;
    }
  }

  /** A slug is in normal form. */
  lemma SlugIsSlug(lower: char -> char, name: string)
    ensures IsSlug(Slug(lower, name))
  {
    SanitizedHasSingleUnderscores(Lowered(lower, name));
    TrimmedIsSlug(Sanitized(Lowered(lower, name)));
  }

  lemma {:induction false} SanitizedStays(s: string)
    requires HasSingleUnderscores(s)
    ensures Sanitized(s) == s
    decreases |s|
  {
    if s != "" {
      if !IsWordChar(s[0]) {
        assert |s| > 1 ==> IsWordChar(s[1]);
        assert JunkRun(s[1..]) == 0 && JunkRun(s) == 1;
      }
      SanitizedStays(s[1..]);
      assert s == [s[0]] + s[1..];
    }
  }

  // ---- What a slug says ----

  /** An ASCII digit or lower-case letter, by its code. */
  ghost predicate IsLetterOrDigit(c: char) {
    48 <= c as int <= 57 || 97 <= c as int <= 122
  }

  /** Length of the leading run of letters and digits. */
  ghost function WordRun(s: string): (n: nat)
    ensures n <= |s| && (forall i | 0 <= i < n :: IsLetterOrDigit(s[i])) && (n < |s| ==> !IsLetterOrDigit(s[n]))
  {
    if s == "" || !IsLetterOrDigit(s[0]) then 0 else 1 + WordRun(s[1..])
  }

  /** The longest runs of letters and digits, in order. */
  ghost function Words(s: string): seq<string>
    decreases |s|
  {
    if s == "" then []
    else if !IsLetterOrDigit(s[0]) then Words(s[1..])
    else [s[..WordRun(s)]] + Words(s[WordRun(s)..])
  }

  ghost function Joined(words: seq<string>): string {
    if words == [] then "" else if |words| == 1 then words[0] else words[0] + "_" + Joined(words[1..])
  }

  lemma {:induction false} SanitizedKeepsWord(w: string, rest: string)
    requires forall i | 0 <= i < |w| :: IsWordChar(w[i])
    ensures Sanitized(w + rest) == w + Sanitized(rest)
  {
    if w == "" {
      assert w + rest == rest;
    } else {
      SanitizedKeepsWord(w[1..], rest);
      assert (w + rest)[1..] == w[1..] + rest;
      assert w == [w[0]] + w[1..];
    }
  }

  lemma {:induction false} WordsSkipJunk(s: string)
    ensures Words(s) == Words(s[JunkRun(s)..])
  {
    if s != "" && !IsWordChar(s[0]) {
      WordsSkipJunk(s[1..]);
      assert s[1..][JunkRun(s[1..])..] == s[JunkRun(s)..];
    }
  }

  lemma {:induction false} TrimRightKeepsFront(front: string, s: string)
    requires TrimRight(s) != ""
    ensures TrimRight(front + s) == front + TrimRight(s)
  {
    if s != "" && s[|s| - 1] == '_' {
      assert (front + s)[..|front + s| - 1] == front + s[..|s| - 1];
      TrimRightKeepsFront(front, s[..|s| - 1]);
    }
  }

  lemma SplitAtWord(s: string) returns (w: string, rest: string)
    requires s != "" && IsWordChar(s[0])
    ensures s == w + rest && w != "" && (forall i | 0 <= i < |w| :: IsWordChar(w[i]))
    ensures rest != "" ==> !IsWordChar(rest[0])
    ensures Words(s) == [w] + Words(rest) && Sanitized(s) == w + Sanitized(rest) && TrimRight(w) == w
  {
    w, rest := s[..WordRun(s)], s[WordRun(s)..];
    assert s == w + rest;
    SanitizedKeepsWord(w, rest);
  }

  lemma SplitAtJunk(s: string) returns (next: string)
    requires s != "" && !IsWordChar(s[0])
    ensures |next| < |s| && (next != "" ==> IsWordChar(next[0]))
    ensures Words(s) == Words(next) && Sanitized(s) == "_" + Sanitized(next)
  {
    next := s[JunkRun(s)..];
    WordsSkipJunk(s);
  }

  lemma WordBeforeRest(w: string, next: string)
    requires w != "" && TrimRight(w) == w && TrimRight(Sanitized(next)) == Joined(Words(next))
    requires next != "" ==> Words(next) != [] && Joined(Words(next)) != ""
    ensures TrimRight(w + "_" + Sanitized(next)) == Joined([w] + Words(next)) && Joined([w] + Words(next)) != ""
  {
    if next == "" {
      assert w + "_" + Sanitized(next) == w + "_" && (w + "_")[..|w|] == w;
      assert Words(next) == [] && [w] + Words(next) == [w];
    } else {
      TrimRightKeepsFront(w + "_", Sanitized(next));
      assert ([w] + Words(next))[1..] == Words(next);
    }
  }

  lemma NothingJoins()
    ensures Sanitized("") == "" && TrimRight("") == "" && Words("") == [] && Joined([]) == ""
  {
  }

  /** After a word character, or at the end, sanitizing joins the words with underscores, up to one at the end. */
  lemma {:induction false} SanitizedJoinsWords(s: string)
    requires s != "" ==> IsWordChar(s[0])
    ensures TrimRight(Sanitized(s)) == Joined(Words(s)) && (s != "" ==> Words(s) != [] && Joined(Words(s)) != "")
    decreases |s|
  {
    hide Sanitized, Words, TrimRight, Joined, JunkRun, WordRun;
    NothingJoins();
    if s != "" {
      var w, rest := SplitAtWord(s);
      if rest == "" {
        assert w + Sanitized(rest) == w && [w] + Words(rest) == [w];
        JoinedOne(w);
      } else {
        var next := SplitAtJunk(rest);
        SanitizedJoinsWords(next);
        WordBeforeRest(w, next);
        assert w + ("_" + Sanitized(next)) == w + "_" + Sanitized(next);
      }
    }
  }

  lemma JoinedOne(w: string)
    ensures Joined([w]) == w
  {
  }

  /** The slug of a name is the words of the lower-cased name, joined by underscores. */
  lemma SlugJoinsWords(lower: char -> char, name: string)
    ensures Slug(lower, name) == Joined(Words(seq(|name|, i requires 0 <= i < |name| => lower(name[i]))))
  {
    var s := seq(|name|, i requires 0 <= i < |name| => lower(name[i]));
    assert Lowered(lower, name) == s;
    if s != "" && !IsWordChar(s[0]) {
      var next := s[JunkRun(s)..];
      WordsSkipJunk(s);
      SanitizedJoinsWords(next);
      assert Sanitized(s) == "_" + Sanitized(next) && Sanitized(s)[1..] == Sanitized(next);
      assert TrimLeft(Sanitized(next)) == Sanitized(next);
      assert TrimLeft(Sanitized(s)) == Sanitized(next);
    } else {
      SanitizedJoinsWords(s);
      assert TrimLeft(Sanitized(s)) == Sanitized(s);
    }
  }

  /** The names slugging leaves alone are exactly the slugs, so slugging is idempotent. */
  lemma SlugFixesSlugs(lower: char -> char, s: string)
    requires forall c :: IsWordChar(c) || c == '_' ==> lower(c) == c
    ensures Slug(lower, s) == s <==> IsSlug(s)
    ensures Slug(lower, Slug(lower, s)) == Slug(lower, s)
  {
    SlugIsSlug(lower, s);
    if IsSlug(s) { SlugStays(lower, s); }
    SlugStays(lower, Slug(lower, s));
  }

  lemma SlugStays(lower: char -> char, s: string)
    requires forall c :: IsWordChar(c) || c == '_' ==> lower(c) == c
    requires IsSlug(s)
    ensures Slug(lower, s) == s
  {
    assert Lowered(lower, s) == s;
    SanitizedStays(s);
  }

  // ---- Numbers ----

  predicate IsDigit(c: char) {
    '0' <= c <= '9'
  }

  function DigitChar(d: nat): (c: char)
    requires d < 10
    ensures IsDigit(c)
  {
    ('0' as int + d) as char
  }

  function Decimal(n: nat): (s: string)
    ensures s != "" && forall i | 0 <= i < |s| :: IsDigit(s[i])
  {
    if n < 10 then [DigitChar(n)] else Decimal(n / 10) + [DigitChar(n % 10)]
  }

  function ZeroPadded(s: string, width: nat): string {
    if |s| < width then seq(width - |s|, _ => '0') + s else s
  }

  /** %05d: at least five characters, the sign included. */
  function Printed(v: int): string {
    if v >= 0 then ZeroPadded(Decimal(v), 5) else "-" + ZeroPadded(Decimal(-v), 4)
  }

  function FileName(version: int, slug: string): string {
    Printed(version) + "_" + slug + ".sql"
  }

  function NumberOf(digits: string): nat
    requires forall i | 0 <= i < |digits| :: IsDigit(digits[i])
  {
    if digits == "" then 0 else
      assert IsDigit(digits[|digits| - 1]);
      10 * NumberOf(digits[..|digits| - 1]) + (digits[|digits| - 1] as int - '0' as int)
  }

  /** Length of the leading run of digits. */
  function DigitRun(s: string): (n: nat)
    ensures n <= |s| && (forall i | 0 <= i < n :: IsDigit(s[i])) && (n < |s| ==> !IsDigit(s[n]))
  {
    if s == "" || !IsDigit(s[0]) then 0 else 1 + DigitRun(s[1..])
  }

  /** The number before the first underscore of a file name; one too large for an int does not count. */
  function VersionOf(name: string): (v: Option<nat>)
    ensures v.Some? ==> v.value <= MAX_INT
  {
    var n := DigitRun(name);
    if n == 0 || n == |name| || name[n] != '_' || NumberOf(name[..n]) > MAX_INT then None
    else Some(NumberOf(name[..n]))
  }

  /** 64-bit wrap-around. */
  function Wrapped(v: int): int {
    (v + MAX_INT + 1) % (2 * (MAX_INT + 1)) - (MAX_INT + 1)
  }

  lemma {:induction false} DecimalDenotes(n: nat)
    ensures NumberOf(Decimal(n)) == n
  {
    if n < 10 {
      assert Decimal(n)[..0] == "";
    } else {
      DecimalDenotes(n / 10);
      assert Decimal(n)[..|Decimal(n)| - 1] == Decimal(n / 10);
    }
  }

  lemma {:induction false} LeadingZeros(n: nat, digits: string)
    requires forall i | 0 <= i < |digits| :: IsDigit(digits[i])
    ensures var padded := seq(n, _ => '0') + digits;
            (forall i | 0 <= i < |padded| :: IsDigit(padded[i])) && NumberOf(padded) == NumberOf(digits)
    decreases |digits| + n
  {
    var padded := seq(n, _ => '0') + digits;
    if digits != "" {
      LeadingZeros(n, digits[..|digits| - 1]);
      assert padded[..|padded| - 1] == seq(n, _ => '0') + digits[..|digits| - 1];
    } else if n > 0 {
      LeadingZeros(n - 1, "");
      assert padded[..|padded| - 1] == seq(n - 1, _ => '0') + "";
    }
  }

  lemma PrintedDenotes(v: nat)
    ensures (forall i | 0 <= i < |Printed(v)| :: IsDigit(Printed(v)[i])) && Printed(v) != ""
    ensures NumberOf(Printed(v)) == v
  {
    DecimalDenotes(v);
    LeadingZeros(if |Decimal(v)| < 5 then 5 - |Decimal(v)| else 0, Decimal(v));
  }

  lemma {:induction false} DigitRunOf(digits: string, rest: string)
    requires forall i | 0 <= i < |digits| :: IsDigit(digits[i])
    requires rest != "" ==> !IsDigit(rest[0])
    ensures DigitRun(digits + rest) == |digits|
  {
    if digits == "" {
      assert digits + rest == rest;
    } else {
      assert (digits + rest)[1..] == digits[1..] + rest;
      DigitRunOf(digits[1..], rest);
    }
  }

  /** Every file name that is printed is parsed back to its number, below integer overflow, whatever its slug. */
  lemma NumberRoundTrip(version: nat, slug: string)
    ensures VersionOf(FileName(version, slug)) == if version <= 0x7FFF_FFFF_FFFF_FFFF then Some(version) else None
  {
    var printed, rest := Printed(version), "_" + slug + ".sql";
    PrintedDenotes(version);
    assert FileName(version, slug) == printed + rest;
    DigitRunOf(printed, rest);
    assert FileName(version, slug)[..|printed|] == printed;
  }

  /** A file name starts with k digits that denote v, then an underscore. */
  ghost predicate StartsWith(name: string, k: nat, v: nat) {
    && 0 < k < |name| && name[k] == '_' && v <= 0x7FFF_FFFF_FFFF_FFFF
    && (forall i | 0 <= i < |name[..k]| :: '0' <= name[..k][i] <= '9') && NumberOf(name[..k]) == v
  }

  /** The number of any file name: that of the digits up to its first underscore, if it begins with digits, all of
      what is before that underscore is digits, and an int can hold it. */
  lemma VersionOfIff(name: string, v: nat)
    ensures VersionOf(name) == Some(v) <==> exists k: nat :: StartsWith(name, k, v)
  {
    if k: nat :| StartsWith(name, k, v) {
      assert name == name[..k] + name[k..];
      DigitRunOf(name[..k], name[k..]);
    }
    if VersionOf(name) == Some(v) { assert StartsWith(name, DigitRun(name), v); }
  }

  lemma {:induction false} DecimalLeads(n: nat)
    ensures n > 0 ==> Decimal(n)[0] != '0'
  {
    if n >= 10 { DecimalLeads(n / 10); }
  }

  /** A file name is at least five digits that denote its number, with no more zeros in front than that takes, an
      underscore, the slug and the extension. */
  lemma FileNameText(version: nat, slug: string)
    ensures var name := FileName(version, slug);
            var digits := name[..if |name| < |slug| + 5 then 0 else |name| - |slug| - 5];
            && name == digits + "_" + slug + ".sql"
            && |digits| >= 5 && (|digits| > 5 ==> digits[0] != '0')
            && (forall i | 0 <= i < |digits| :: '0' <= digits[i] <= '9') && NumberOf(digits) == version
  {
    var digits, name := Printed(version), FileName(version, slug);
    PrintedDenotes(version);
    DecimalLeads(version);
    assert name == digits + "_" + slug + ".sql" && name[..|name| - |slug| - 5] == digits;
  }

  lemma FewPrinted()
    ensures Printed(1) == "00001" && Printed(2) == "00002" && Printed(12) == "00012"
  {
    assert Decimal(1) == "1" && Decimal(2) == "2" && Decimal(12) == "12";
  }

  /** The repository's own examples. */
  lemma Examples()
    ensures FileName(2, "add_widgets") == "00002_add_widgets.sql" && FileName(12, "a") == "00012_a.sql"
    ensures VersionOf("00001_baseline.sql") == Some(1) && VersionOf("notes.txt") == None
  {
    hide Printed, VersionOf;
    FewPrinted();
    assert "00001" + "_" + "baseline" + ".sql" == "00001_baseline.sql";
    NumberRoundTrip(1, "baseline");
    NotesHaveNoNumber();
  }

  lemma NotesHaveNoNumber()
    ensures VersionOf("notes.txt") == None
  {
    assert DigitRun("notes.txt") == 0;
  }

  /** A name printed after overflow counts for nothing. */
  lemma NegativeIsNotParsed(version: int, slug: string)
    requires version < 0
    ensures VersionOf(FileName(version, slug)) == None
  {
    assert FileName(version, slug)[0] == '-';
  }

  // ---- The next number ----

  ghost predicate IsHighest(names: seq<string>, v: nat) {
    && (exists name :: name in names && VersionOf(name) == Some(v))
    && forall name | name in names && VersionOf(name).Some? :: VersionOf(name).value <= v
  }

  /** One above the highest number, or 1 when there is none. */
  ghost predicate IsNext(names: seq<string>, v: int) {
    if forall name | name in names :: VersionOf(name).None? then v == 1
    else exists highest: nat :: IsHighest(names, highest) && v == Wrapped(highest + 1)
  }

  ghost predicate IsSorted(s: seq<int>) {
    forall i, j | 0 <= i < j < |s| :: s[i] <= s[j]
  }

  method Insert(sorted: seq<int>, v: int) returns (r: seq<int>)
    requires IsSorted(sorted)
    ensures IsSorted(r) && multiset(r) == multiset(sorted) + multiset{v}
  {
    var i := |sorted|;
    while i > 0 && sorted[i - 1] > v
      invariant 0 <= i <= |sorted| && (i < |sorted| ==> sorted[i] > v)
    {
      i := i - 1;
    }
    assert sorted == sorted[..i] + sorted[i..];
    r := sorted[..i] + [v] + sorted[i..];
    InsertedIsSorted(sorted, i, v);
  }

  lemma InsertedIsSorted(sorted: seq<int>, i: nat, v: int)
    requires IsSorted(sorted) && i <= |sorted| && (i > 0 ==> sorted[i - 1] <= v) && (i < |sorted| ==> v <= sorted[i])
    ensures IsSorted(sorted[..i] + [v] + sorted[i..])
  {
    var r := sorted[..i] + [v] + sorted[i..];
    assert forall j | 0 <= j < |r| :: r[j] == if j < i then sorted[j] else if j == i then v else sorted[j - 1];
  }

  method SortInts(values: seq<int>) returns (sorted: seq<int>)
    ensures IsSorted(sorted) && multiset(sorted) == multiset(values)
  {
    sorted := [];
    for i := 0 to |values|
      invariant IsSorted(sorted) && multiset(sorted) == multiset(values[..i])
    {
      assert values[..i + 1] == values[..i] + [values[i]];
      sorted := Insert(sorted, values[i]);
    }
    assert values[..|values|] == values;
  }

  method NextVersion(names: seq<string>) returns (next: int)
    ensures IsNext(names, next)
  {
    var versions: seq<int> := [];
    for i := 0 to |names|
      invariant forall v :: v in versions <==> exists name :: name in names[..i] && v >= 0 && VersionOf(name) == Some(v)
    {
      var version := VersionOf(names[i]);
      assert names[..i + 1] == names[..i] + [names[i]];
      if version.Some? { versions := versions + [version.value]; }
    }
    assert names[..|names|] == names;
    if |versions| == 0 {
      assert forall name | name in names && VersionOf(name).Some? :: VersionOf(name).value in versions;
      return 1;
    }
    var sorted := SortInts(versions);
    var last := sorted[|sorted| - 1];
    assert forall v :: v in sorted <==> v in versions by {
      assert forall v :: v in sorted <==> v in multiset(sorted);
      assert forall v :: v in versions <==> v in multiset(versions);
    }
    assert last in versions;
    assert IsHighest(names, last) by {
      forall name | name in names && VersionOf(name).Some?
        ensures VersionOf(name).value <= last
      {
        var v := VersionOf(name).value;
        assert v in versions && v in sorted;
        var j :| 0 <= j < |sorted| && sorted[j] == v;
      }
    }
    next := Wrapped(last + 1);
  }

  // ---- Creating files ----

  const TEMPLATE := "-- +goose Up\n\n-- +goose Down\n"

  datatype CreateError = NoUsableCharacters | AlreadyExists | WriteFailed

  /** The highest number of the directory is below the largest int. */
  ghost predicate NumbersFit(names: seq<string>) {
    forall name | name in names && VersionOf(name).Some? :: VersionOf(name).value < MAX_INT
  }

  lemma NextIsAbove(names: seq<string>, v: int)
    requires IsNext(names, v)
    requires NumbersFit(names)
    ensures 1 <= v <= MAX_INT
    ensures forall name | name in names && VersionOf(name).Some? :: VersionOf(name).value < v
  {
    hide VersionOf;
  }

  lemma NextFileIsNew(names: seq<string>, v: int, slug: string)
    requires IsNext(names, v)
    requires NumbersFit(names)
    ensures FileName(v, slug) !in names
  {
    hide VersionOf, FileName, IsNext;
    NextIsAbove(names, v);
    NumberRoundTrip(v, slug);
  }

  class MigrationDir {
    const faulty: bool  // whether creating, writing or closing a file may fail for reasons of the file system
    var names: seq<string>
    var contents: map<string, string>

    ghost predicate Valid()
      reads this
    {
      forall name :: name in names <==> name in contents
    }

    constructor (faulty: bool)
      ensures Valid() && names == [] && this.faulty == faulty
    {
      this.faulty, names, contents := faulty, [], map[];
    }

    /** Creates the next migration file. A failed write may leave a partial file behind. */
    method CreateMigration(lower: char -> char, name: string) returns (r: Result<string, CreateError>)
      requires Valid()
      modifies this
      ensures Valid()
      ensures r == Err(NoUsableCharacters) <==> Slug(lower, name) == ""
      ensures r.Err? && !r.error.WriteFailed? ==> names == old(names) && contents == old(contents)
      ensures r == Err(WriteFailed) ==>
                faulty &&
                (names == old(names) ||
                 exists v :: IsNext(old(names), v) && names == old(names) + [FileName(v, Slug(lower, name))])
      ensures r.Ok? ==>
                exists v ::
                  IsNext(old(names), v) && r.value == FileName(v, Slug(lower, name)) && r.value !in old(names)
      ensures r.Ok? ==> names == old(names) + [r.value]
      ensures r.Ok? ==> contents == old(contents)[r.value := "-- +goose Up\n\n-- +goose Down\n"]
      ensures forall f | f in old(contents) :: f in contents && contents[f] == old(contents)[f]
      ensures r == Err(AlreadyExists) ==>
                exists v :: IsNext(old(names), v) && FileName(v, Slug(lower, name)) in old(names)
      ensures !faulty && Slug(lower, name) != "" && NumbersFit(old(names)) ==> r.Ok?
    {
      var slug := Slug(lower, name);
      if slug == "" { return Err(NoUsableCharacters); }
      var next := NextVersion(names);
      var path := FileName(next, slug);
      if path in contents {
        if NumbersFit(names) { NextFileIsNew(names, next, slug); }
        return Err(AlreadyExists);
      }
      var fails: bool, removed: bool := *, *;
      if faulty && fails && removed { return Err(WriteFailed); }
      names := names + [path];
      if faulty && fails {
        var written: string := *;
        contents := contents[path := written];
        return Err(WriteFailed);
      }
      contents := contents[path := TEMPLATE];
      r := Ok(path);
    }
  }

  lemma NextAfter(names: seq<string>, created: string, v: nat, next: int)
    requires VersionOf(created) == Some(v) && IsNext(names + [created], next)
    requires forall name | name in names && VersionOf(name).Some? :: VersionOf(name).value < v
    ensures next == Wrapped(v + 1)
  {
    hide VersionOf, Wrapped;
    var longer := names + [created];
    assert created in longer && forall name | name in longer :: name in names || name == created;
    var highest: nat :| IsHighest(longer, highest) && next == Wrapped(highest + 1);
    assert highest == v;
  }

  /** A new number is above every number there is, so its file is new whatever its slug; and the number after
      it is one higher. */
  lemma SerialCreatesAreConsecutive(names: seq<string>, v: int, slug: string, next: int)
    requires IsNext(names, v) && IsNext(names + [FileName(v, slug)], next)
    requires NumbersFit(names)
    ensures 1 <= v <= MAX_INT
    ensures forall name | name in names && VersionOf(name).Some? :: VersionOf(name).value < v
    ensures FileName(v, slug) !in names
    ensures next == if v < MAX_INT then v + 1 else -MAX_INT - 1
  {
    hide VersionOf, FileName, IsNext;
    NextIsAbove(names, v);
    NextFileIsNew(names, v, slug);
    NumberRoundTrip(v, slug);
    NextAfter(names, FileName(v, slug), v, next);
  }

  /** A series of creates, nothing else touching the directory: names[k] is what the k-th one finds. */
  ghost predicate IsSeries(names: seq<seq<string>>, versions: seq<int>, slugs: seq<string>) {
    && |names| == |versions| + 1 && |slugs| == |versions|
    && forall k | 0 <= k < |versions| ::
         IsNext(names[k], versions[k]) && names[k + 1] == names[k] + [FileName(versions[k], slugs[k])]
  }

  /** The numbers of a series of creates are consecutive, each above every number in the directory. */
  lemma {:induction false} SeriesCountsUp(names: seq<seq<string>>, versions: seq<int>, slugs: seq<string>, k: nat)
    requires IsSeries(names, versions, slugs) && k < |versions|
    requires NumbersFit(names[0])
    requires versions[0] + k <= MAX_INT
    ensures versions[k] == versions[0] + k && versions[0] >= 1
    ensures forall name | name in names[k] && VersionOf(name).Some? :: VersionOf(name).value < versions[k]
  {
    hide VersionOf, FileName, IsNext;
    if k == 0 {
      NextIsAbove(names[0], versions[0]);
    } else {
      SeriesCountsUp(names, versions, slugs, k - 1);
      NumberRoundTrip(versions[k - 1], slugs[k - 1]);
      assert IsNext(names[k - 1 + 1], versions[k]);
      NextAfter(names[k - 1], FileName(versions[k - 1], slugs[k - 1]), versions[k - 1], versions[k]);
    }
  }

  /** Once the highest number is the largest int, the number after it is negative and its file is not seen:
      creating stalls there. */
  lemma NumbersStallAtOverflow(names: seq<string>, v: int, slug: string, next: int)
    requires IsNext(names, v) && IsNext(names + [FileName(v, slug)], next)
    requires exists name :: name in names && VersionOf(name) == Some(0x7FFF_FFFF_FFFF_FFFF)
    ensures v == next == -0x8000_0000_0000_0000 && VersionOf(FileName(v, slug)) == None
  {
    hide VersionOf, FileName;
    var top :| top in names && VersionOf(top) == Some(MAX_INT);
    HighestIsTop(names, top, v);
    NegativeIsNotParsed(v, slug);
    HighestIsTop(names + [FileName(v, slug)], top, next);
  }

  lemma HighestIsTop(names: seq<string>, top: string, v: int)
    requires IsNext(names, v) && top in names && VersionOf(top) == Some(MAX_INT)
    ensures v == -MAX_INT - 1
  {
    hide VersionOf;
    var highest: nat :| IsHighest(names, highest) && v == Wrapped(highest + 1);
    assert highest <= MAX_INT;
  }
}
