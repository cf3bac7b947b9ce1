/**
 Multipart uploads (cmd/app-market/main.go): parts arrive in any order and may be sent again, each
 as a file named by its number; completing the upload lists the directory, checks that the numbers
 are 1 to n, and joins the files.
 */
module Multipart {
  import opened Options
  import opened Quoting
  import opened Sets
  import opened Texts

  type Directory = map<string, string>

  const SUFFIX := ".part"

  // ---- file names -----------------------------------------------------------------------------

  function Zeros(n: nat): (s: string)
    ensures |s| == n
  {
    seq(n, _ => '0')
  }

  /** The %08d verb for a positive number. */
  function Padded(n: nat): string { Pad(NatText(n)) }

  function Pad(text: string): string { Zeros(if |text| < 8 then 8 - |text| else 0) + text }

  function PartName(n: nat): string { Padded(n) + SUFFIX }

  predicate AllDigits(s: string) { forall i :: 0 <= i < |s| ==> '0' <= s[i] <= '9' }

  predicate Signed(s: string) { s != "" && (s[0] == '-' || s[0] == '+') }

  /** strconv.Atoi. */
  function Atoi(s: string): Option<int> {
    var digits := if Signed(s) then s[1..] else s;
    if digits == "" || !AllDigits(digits) then None
    else
      var n: int := NatValue(digits);
      if s[0] == '-' then (if n <= MAX_INT64 + 1 then Some(-n) else None)
      else if n <= MAX_INT64 then Some(n) else None
  }

  /** The part number of a directory entry, or None for an entry the listing skips. */
  function PartNumber(name: string): Option<int> {
    if HasSuffix(name, SUFFIX) then Atoi(name[..|name| - |SUFFIX|]) else None
  }

  lemma {:induction false} LeadingZeros(n: nat, s: string)
    ensures NatValue(Zeros(n) + s) == NatValue(s)
    decreases |s|, n
  {
    var t := Zeros(n) + s;
    if s == "" {
      assert t == Zeros(n);
      if n > 0 {
        assert Zeros(n)[..n - 1] == Zeros(n - 1) && Zeros(n - 1) + "" == Zeros(n - 1);
        LeadingZeros(n - 1, "");
      }
    } else {
      assert t[..|t| - 1] == Zeros(n) + s[..|s| - 1] && t[|t| - 1] == s[|s| - 1];
      LeadingZeros(n, s[..|s| - 1]);
    }
  }

  lemma ZerosKeepDigits(n: nat, s: string)
    requires AllDigits(s)
    ensures AllDigits(Zeros(n) + s)
  {}

  lemma PaddedRoundTrip(n: nat)
    requires n <= MAX_INT64
    ensures Atoi(Padded(n)) == Some(n)
    ensures |Padded(n)| == if |NatText(n)| < 8 then 8 else |NatText(n)|
  {
    NatTextIsDigits(n);
    PadParses(NatText(n));
  }

  lemma NatTextIsDigits(n: nat)
    ensures AllDigits(NatText(n)) && NatValue(NatText(n)) == n && NatText(n) != ""
  {
    NatRoundTrip(n);
    var text := NatText(n);
    forall i | 0 <= i < |text| ensures '0' <= text[i] <= '9' { assert text[i] in text; }
  }

  lemma PadParses(s: string)
    requires s != "" && AllDigits(s) && NatValue(s) <= MAX_INT64
    ensures Atoi(Pad(s)) == Some(NatValue(s))
  {
    var pad := if |s| < 8 then 8 - |s| else 0;
    ZerosKeepDigits(pad, s);
    LeadingZeros(pad, s);
    assert '0' <= Pad(s)[0] <= '9';
  }

  lemma SuffixSplits(stem: string)
    ensures HasSuffix(stem + SUFFIX, SUFFIX) && (stem + SUFFIX)[..|stem + SUFFIX| - |SUFFIX|] == stem
  {}

  /** Listing reads back the number a part file was named by. */
  lemma PartNameRoundTrip(n: nat)
    requires n <= MAX_INT64
    ensures PartNumber(PartName(n)) == Some(n)
  {
    PaddedRoundTrip(n);
    SuffixSplits(Padded(n));
  }

  // ---- listing and assembling -----------------------------------------------------------------

  /** A name that is the one its number is written with. */
  predicate CanonicalName(name: string) {
    PartNumber(name).Some? && PartNumber(name).value >= 0 && name == PartName(PartNumber(name).value)
  }

  predicate Canonical(dir: Directory) { forall name <- dir :: PartNumber(name).Some? ==> CanonicalName(name) }

  function PartsIn(dir: Directory): set<int> {
    set name | name in dir && PartNumber(name).Some? :: PartNumber(name).value
  }

  /** Opening the file of a part. */
  type Opener = nat -> Option<string>

  function Files(dir: Directory): Opener {
    (part: nat) => if PartName(part) in dir then Some(dir[PartName(part)]) else None
  }

  /** The contents of parts 1 to n in order. */
  function Joined(open: Opener, n: nat): string {
    if n == 0 then "" else Joined(open, n - 1) + if open(n).Some? then open(n).value else ""
  }

  lemma {:induction false} JoinedAgrees(f: Opener, g: Opener, n: nat)
    requires forall k: nat :: 1 <= k <= n ==> f(k) == g(k)
    ensures Joined(f, n) == Joined(g, n)
  {
    if n > 0 { JoinedAgrees(f, g, n - 1); }
  }

  /** Where part n ends in the joined file. */
  function EndOf(open: Opener, n: nat): nat {
    if n == 0 then 0 else EndOf(open, n - 1) + if open(n).Some? then |open(n).value| else 0
  }

  /** Every part lies in the joined file where the parts before it end, and nothing else does. */
  lemma {:induction false} PartsInPlace(open: Opener, n: nat, part: nat)
    requires 1 <= part <= n && open(part).Some?
    ensures |Joined(open, n)| == EndOf(open, n) && EndOf(open, part - 1) <= EndOf(open, part) <= EndOf(open, n)
    ensures Joined(open, n)[EndOf(open, part - 1)..EndOf(open, part)] == open(part).value
  {
    JoinedSize(open, n - 1);
    JoinedSize(open, n);
    if part < n {
      PartsInPlace(open, n - 1, part);
    }
  }

  lemma {:induction false} JoinedSize(open: Opener, n: nat)
    ensures |Joined(open, n)| == EndOf(open, n)
  {
    if n > 0 { JoinedSize(open, n - 1); }
  }

  /** The entries the listing keeps. */
  function PartNames(dir: Directory): set<string> { set name | name in dir && PartNumber(name).Some? }

  /** What completing an upload yields: the listing has n entries, their numbers are 1 to n, and
      each of the n part files can be opened. */
  ghost function Assembled(dir: Directory): Option<string> {
    var n := |PartNames(dir)|;
    if n >= 1 && PartsIn(dir) == OneTo(n) && AllOpen(Files(dir), n) then Some(Joined(Files(dir), n)) else None
  }

  ghost predicate AllOpen(open: Opener, n: nat) { forall part: nat :: 1 <= part <= n ==> open(part).Some? }

  /** listUploadedParts, over the directory in any order: one number for each kept entry. */
  method ListUploadedParts(dir: Directory) returns (parts: seq<int>)
    ensures forall part :: part in parts <==> part in PartsIn(dir)
    ensures |parts| == |PartNames(dir)|
  {
    parts := [];
    ghost var kept: set<string> := {};
    var remaining := dir.Keys;
    while remaining != {}
      invariant remaining <= dir.Keys
      invariant kept == PartNames(dir) - remaining && |parts| == |kept|
      invariant forall part :: part in parts <==> part in Numbers(kept)
      decreases |remaining|
    {
      var name :| name in remaining;
      remaining := remaining - {name};
      if PartNumber(name).Some? {
        OneMoreName(kept, name);
        parts, kept := parts + [PartNumber(name).value], kept + {name};
      }
    }
    SameNumbers(dir, kept);
  }

  function Numbers(names: set<string>): set<int> {
    set name | name in names && PartNumber(name).Some? :: PartNumber(name).value
  }

  lemma OneMoreName(names: set<string>, name: string)
    requires PartNumber(name).Some?
    ensures Numbers(names + {name}) == Numbers(names) + {PartNumber(name).value}
  {
    forall part | part in Numbers(names + {name}) ensures part in Numbers(names) + {PartNumber(name).value} {
      var other :| other in names + {name} && PartNumber(other).Some? && PartNumber(other).value == part;
    }
  }

  lemma SameNumbers(dir: Directory, kept: set<string>)
    requires forall name :: name in kept <==> name in PartNames(dir)
    ensures kept == PartNames(dir) && Numbers(kept) == PartsIn(dir)
  {}

  function PartSet(parts: seq<int>): (numbers: set<int>)
    ensures forall part :: part in numbers <==> part in parts
    ensures |numbers| <= |parts|
  {
    if parts == [] then {} else PartSet(parts[..|parts| - 1]) + {parts[|parts| - 1]}
  }

  /** The loop that looks for every number up to the length of the listing. */
  method FindMissing(parts: seq<int>) returns (complete: bool)
    ensures complete <==> OneTo(|parts|) <= PartSet(parts)
  {
    var partSet := PartSet(parts);
    for i := 1 to |parts| + 1
      invariant forall k :: 1 <= k < i ==> k in partSet
    {
      if i !in partSet {
        assert i in OneTo(|parts|);
        return false;
      }
    }
    return true;
  }

  /** The copy loop; a part file that cannot be opened is an error. */
  method CopyParts(open: Opener, n: nat) returns (file: Option<string>, total: nat)
    ensures file.Some? <==> AllOpen(open, n)
    ensures file.Some? ==> file.value == Joined(open, n) && total == |file.value|
  {
    var out := "";
    total := 0;
    for part := 1 to n + 1
      invariant out == Joined(open, part - 1) && total == |out|
      invariant forall k: nat :: 1 <= k < part ==> open(k).Some?
    {
      var contents := open(part);
      if contents.None? { return None, 0; }
      out := out + contents.value;
      total := total + |contents.value|;
    }
    return Some(out), total;
  }

  /** assembleParts: a directory whose listing has n entries must hold every part from 1 to n, and by
      counting it then holds no other. The result is the joined file and its size. */
  method AssembleParts(dir: Directory) returns (file: Option<string>, total: nat)
    ensures file == Assembled(dir)
    ensures file.Some? ==> total == |file.value|
  {
    var parts := ListUploadedParts(dir);
    ListingDecides(PartsIn(dir), parts);
    if |parts| == 0 { return None, 0; }
    var complete := FindMissing(parts);
    if !complete { return None, 0; }
    file, total := CopyParts(Files(dir), |parts|);
  }

  /** By counting, a listing without gaps is the range and nothing more. */
  lemma ListingDecides(numbers: set<int>, parts: seq<int>)
    requires forall part :: part in parts <==> part in numbers
    ensures OneTo(|parts|) <= PartSet(parts) <==> numbers == OneTo(|parts|)
  {
    forall part: int ensures part in PartSet(parts) <==> part in numbers {
      assert part in PartSet(parts) <==> part in parts;
    }
    assert PartSet(parts) == numbers;
    if OneTo(|parts|) <= numbers { RangeFills(|parts|, numbers); }
  }

  lemma RangeFills(n: nat, numbers: set<int>)
    requires OneTo(n) <= numbers && |numbers| <= n
    ensures numbers == OneTo(n)
  {
    assert numbers == OneTo(n) + (numbers - OneTo(n));
    SubsetOfSameSize(OneTo(n), numbers);
  }

  lemma SameNumberSameName(name: string, other: string)
    requires CanonicalName(name) && CanonicalName(other) && PartNumber(name).value == PartNumber(other).value
    ensures name == other
  {}

  /** In a canonical directory no two names have one number. */
  lemma NamesCount(names: set<string>)
    requires forall name <- names :: CanonicalName(name)
    ensures |Numbers(names)| == |names|
  {
    var numbers := map name | name in names :: PartNumber(name).value;
    forall name, other | name in numbers && other in numbers && numbers[name] == numbers[other] ensures name == other {
      SameNumberSameName(name, other);
    }
    InjectiveCount(numbers);
    assert numbers.Keys == names && numbers.Values == Numbers(names);
  }

  /** For a canonical directory the listed numbers alone decide. */
  lemma CanonicalAssembly(dir: Directory, n: nat)
    requires Canonical(dir) && n >= 1
    ensures PartsIn(dir) == OneTo(n) <==> |PartNames(dir)| == n && Assembled(dir).Some?
    ensures PartsIn(dir) == OneTo(n) ==> Assembled(dir) == Some(Joined(Files(dir), n))
  {
    NamesCount(PartNames(dir));
    SameNumbers(dir, PartNames(dir));
    if PartsIn(dir) == OneTo(n) {
      forall part: nat | 1 <= part <= n ensures Files(dir)(part).Some? {
        assert part in OneTo(n);
        PartFileExists(dir, part);
      }
    }
  }

  lemma PartFileExists(dir: Directory, part: int)
    requires Canonical(dir) && part in PartsIn(dir)
    ensures part >= 0 && PartName(part) in dir
  {
    var name :| name in dir && PartNumber(name).Some? && PartNumber(name).value == part;
  }

  // ---- every order and repetition of uploads --------------------------------------------------

  /** A part is uploaded, or an interrupted upload leaves its temporary file behind. */
  datatype Step = Uploads(part: int, data: string) | Abandons(name: string, data: string)

  /** handlePart: numbers below one are refused, others replace the file of that number; temporary
      files do not end in the part suffix. */
  function Apply(dir: Directory, step: Step): Directory {
    match step
    case Uploads(part, data) => if 1 <= part <= MAX_INT64 then dir[PartName(part) := data] else dir
    case Abandons(name, data) => if HasSuffix(name, SUFFIX) then dir else dir[name := data]
  }

  function After(steps: seq<Step>): Directory {
    if steps == [] then map[] else Apply(After(steps[..|steps| - 1]), steps[|steps| - 1])
  }

  /** The contents last uploaded for a part. */
  function Latest(steps: seq<Step>, part: int): Option<string> {
    if steps == [] then None
    else
      var last := steps[|steps| - 1];
      if last.Uploads? && last.part == part && 1 <= part <= MAX_INT64 then Some(last.data)
      else Latest(steps[..|steps| - 1], part)
  }

  function Uploaded(steps: seq<Step>): set<int> {
    set k | 0 <= k < |steps| && steps[k].Uploads? && 1 <= steps[k].part <= MAX_INT64 :: steps[k].part
  }

  /** The latest contents of every part. */
  function LatestOf(steps: seq<Step>): Opener { (part: nat) => Latest(steps, part) }

  lemma NamesDiffer(m: nat, n: nat)
    requires m <= MAX_INT64 && n <= MAX_INT64 && PartName(m) == PartName(n)
    ensures m == n
  {
    PartNameRoundTrip(m);
    PartNameRoundTrip(n);
  }

  lemma {:induction false} DirectoryIsCanonical(steps: seq<Step>)
    ensures Canonical(After(steps))
  {
    if steps != [] {
      var last := steps[|steps| - 1];
      DirectoryIsCanonical(steps[..|steps| - 1]);
      if last.Uploads? && 1 <= last.part <= MAX_INT64 { PartNameRoundTrip(last.part); }
    }
  }

  lemma {:induction false} DirectoryHoldsLatest(steps: seq<Step>, part: int)
    requires 1 <= part <= MAX_INT64
    ensures PartName(part) in After(steps) <==> Latest(steps, part).Some?
    ensures PartName(part) in After(steps) ==> After(steps)[PartName(part)] == Latest(steps, part).value
  {
    if steps != [] {
      var last := steps[|steps| - 1];
      DirectoryHoldsLatest(steps[..|steps| - 1], part);
      PartNameRoundTrip(part);
      if last.Uploads? && 1 <= last.part <= MAX_INT64 && last.part != part && PartName(last.part) == PartName(part) {
        NamesDiffer(last.part, part);
      }
    }
  }

  lemma {:induction false} UploadedHasLatest(steps: seq<Step>, part: int)
    ensures part in Uploaded(steps) <==> Latest(steps, part).Some?
  {
    if steps != [] {
      var front, last := steps[..|steps| - 1], steps[|steps| - 1];
      UploadedHasLatest(front, part);
      if part in Uploaded(front) {
        var k :| 0 <= k < |front| && front[k].Uploads? && 1 <= front[k].part <= MAX_INT64 && front[k].part == part;
        assert steps[k] == front[k];
      }
      if part in Uploaded(steps) {
        var k :| 0 <= k < |steps| && steps[k].Uploads? && 1 <= steps[k].part <= MAX_INT64 && steps[k].part == part;
        if k < |front| { assert front[k] == steps[k]; }
      }
    }
  }

  lemma PartsAreUploads(steps: seq<Step>)
    ensures PartsIn(After(steps)) == Uploaded(steps)
  {
    var dir := After(steps);
    DirectoryIsCanonical(steps);
    forall part | part in PartsIn(dir) ensures part in Uploaded(steps) {
      PartFileExists(dir, part);
      NumbersArePositive(steps, part);
      DirectoryHoldsLatest(steps, part);
      UploadedHasLatest(steps, part);
    }
    forall part | part in Uploaded(steps) ensures part in PartsIn(dir) {
      DirectoryHoldsLatest(steps, part);
      UploadedHasLatest(steps, part);
      PartNameRoundTrip(part);
    }
  }

  lemma {:induction false} NumbersArePositive(steps: seq<Step>, part: int)
    requires part in PartsIn(After(steps))
    ensures 1 <= part <= MAX_INT64
  {
    var last := steps[|steps| - 1];
    var name :| name in After(steps) && PartNumber(name).Some? && PartNumber(name).value == part;
    if name in After(steps[..|steps| - 1]) { NumbersArePositive(steps[..|steps| - 1], part); }
    else { PartNameRoundTrip(last.part); }
  }

  lemma JoinedIsLatest(steps: seq<Step>, n: nat)
    requires n <= MAX_INT64
    ensures Joined(Files(After(steps)), n) == Joined(LatestOf(steps), n)
  {
    forall k: nat | 1 <= k <= n ensures Files(After(steps))(k) == LatestOf(steps)(k) { DirectoryHoldsLatest(steps, k); }
    JoinedAgrees(Files(After(steps)), LatestOf(steps), n);
  }

  /** Joining parts 1 to n needs no more than the uploads 1 to n. */
  lemma AssemblyIs(steps: seq<Step>, n: nat)
    requires n >= 1 && Uploaded(steps) == OneTo(n)
    ensures Assembled(After(steps)) == Some(Joined(LatestOf(steps), n))
  {
    PartsAreUploads(steps);
    DirectoryIsCanonical(steps);
    CanonicalAssembly(After(steps), n);
    assert n in OneTo(n);
    JoinedIsLatest(steps, n);
  }

  lemma AssemblyNeedsRange(steps: seq<Step>)
    requires Assembled(After(steps)).Some?
    ensures exists n: nat :: n >= 1 && Uploaded(steps) == OneTo(n)
  {
    PartsAreUploads(steps);
    assert Uploaded(steps) == OneTo(|PartNames(After(steps))|);
  }

  /** For every order and repetition of uploads, assembly succeeds exactly when the uploaded numbers
      are 1 to n for some n of at least one, and then yields the latest contents of parts 1 to n
      joined in order. */
  lemma AssemblyOfUploads(steps: seq<Step>)
    ensures Assembled(After(steps)).Some? <==> exists n: nat :: n >= 1 && Uploaded(steps) == OneTo(n)
    ensures forall n: nat :: n >= 1 && Uploaded(steps) == OneTo(n) ==>
              Assembled(After(steps)) == Some(Joined(LatestOf(steps), n))
  {
    if Assembled(After(steps)).Some? { AssemblyNeedsRange(steps); }
    forall n: nat | n >= 1 && Uploaded(steps) == OneTo(n)
      ensures Assembled(After(steps)) == Some(Joined(LatestOf(steps), n))
    {
      AssemblyIs(steps, n);
    }
  }
}
