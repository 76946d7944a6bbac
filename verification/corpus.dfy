/**
 Corpus preparation bookkeeping (`phase_1_prepare_corpus`): which examples of
 a folder are kept, and under which names their processed artifacts are
 written. A folder is its listing of file names (in `listdir` order, files
 only) together with the set of names that exist in it. Audio, spectrogram
 and file copying are left out; what remains is the pairing, the
 de-duplication, the running counter and the `prefix_NNNNN` names.
 */
module Corpus {
  import opened Wrappers

  // ---------------------------------------------------------------------
  // Pairing

  /** `file[:-4]`: the name without its last four characters (empty for a
      shorter name, as Python slicing gives). */
  function BaseName(file: string): (base: string)
    ensures |file| >= 4 ==> |base| == |file| - 4 && base + file[|file| - 4..] == file
    ensures |file| < 4 ==> base == ""
  {
    if |file| >= 4 then file[..|file| - 4] else ""
  }

  /** The base names of a listing, in listing order. */
  function BaseNames(listing: seq<string>): (bases: seq<string>)
    ensures |bases| == |listing|
    ensures forall i :: 0 <= i < |listing| ==> bases[i] == BaseName(listing[i])
  {
    if |listing| == 0 then []
    else BaseNames(listing[..|listing| - 1]) + [BaseName(listing[|listing| - 1])]
  }

  /** An example is usable when both its text and its waveform exist. */
  predicate Paired(base: string, existing: set<string>) {
    base + ".txt" in existing && base + ".wav" in existing
  }

  predicate NoDuplicates<T(==)>(s: seq<T>) {
    forall i, j :: 0 <= i < j < |s| ==> s[i] != s[j]
  }

  /** The position of the first occurrence of `x` in `s`. */
  function FirstIndex<T(==)>(s: seq<T>, x: T): (k: nat)
    requires x in s
    ensures k < |s| && s[k] == x && x !in s[..k]
  {
    if s[0] == x then 0
    else
      var k := 1 + FirstIndex(s[1..], x);
      assert s[..k] == [s[0]] + s[1..][..k - 1];
      k
  }

  /** What a scan of a folder keeps: every paired base name of the listing,
      each once, in the order of first occurrence. */
  ghost predicate IsPairedScan(kept: seq<string>, listing: seq<string>, existing: set<string>) {
    KeepsPairedOnce(kept, BaseNames(listing), existing)
  }

  ghost predicate KeepsPairedOnce(kept: seq<string>, bases: seq<string>, existing: set<string>) {
    && NoDuplicates(kept)
    && (forall b :: b in kept <==> b in bases && Paired(b, existing))
    && (forall i, j :: 0 <= i < j < |kept| ==> FirstIndex(bases, kept[i]) < FirstIndex(bases, kept[j]))
  }

  lemma FirstIndexAt<T>(s: seq<T>, n: nat)
    requires n < |s| && s[n] !in s[..n]
    ensures FirstIndex(s, s[n]) == n
  {
  }

  /** The scan after the first `n` base names. */
  ghost predicate ScanInvariant(kept: seq<string>, bases: seq<string>, n: nat, existing: set<string>)
    requires n <= |bases|
  {
    && NoDuplicates(kept)
    && (forall b :: b in kept <==> b in bases[..n] && Paired(b, existing))
    && (forall i :: 0 <= i < |kept| ==> kept[i] in bases && FirstIndex(bases, kept[i]) < n)
    && (forall i, j :: 0 <= i < j < |kept| ==> FirstIndex(bases, kept[i]) < FirstIndex(bases, kept[j]))
  }

  /** One step of the scan keeps the invariant. */
  lemma ScanStep(kept: seq<string>, bases: seq<string>, n: nat, existing: set<string>)
    requires n < |bases| && ScanInvariant(kept, bases, n, existing)
    ensures var base := bases[n];
      ScanInvariant(if Paired(base, existing) && base !in kept then kept + [base] else kept,
                    bases, n + 1, existing)
  {
    var base := bases[n];
    assert bases[..n + 1] == bases[..n] + [base];
    if Paired(base, existing) && base !in kept {
      FirstIndexAt(bases, n);
      var kept' := kept + [base];
      forall i, j | 0 <= i < j < |kept'|
        ensures FirstIndex(bases, kept'[i]) < FirstIndex(bases, kept'[j])
      {
        if j == |kept| {
          assert kept'[j] == base;
        }
      }
    }
  }

  /** The scanning loop of one folder: for each listed file, keep its base
      name when the `.txt` and the `.wav` both exist and it is not kept
      already. */
  method ScanFolder(listing: seq<string>, existing: set<string>) returns (kept: seq<string>)
    ensures IsPairedScan(kept, listing, existing)
  {
    var bases := BaseNames(listing);
    kept := [];
    var n := 0;
    while n < |listing|
      invariant n <= |listing| == |bases|
      invariant ScanInvariant(kept, bases, n, existing)
    {
      var base := BaseName(listing[n]);
      assert base == bases[n];
      ScanStep(kept, bases, n, existing);
      if Paired(base, existing) && base !in kept {
        kept := kept + [base];
      }
      n := n + 1;
    }
    ScanComplete(kept, bases, existing);
  }

  lemma ScanComplete(kept: seq<string>, bases: seq<string>, existing: set<string>)
    requires ScanInvariant(kept, bases, |bases|, existing)
    ensures KeepsPairedOnce(kept, bases, existing)
  {
    assert bases[..|bases|] == bases;
  }

  // ---------------------------------------------------------------------
  // Numbered names

  function DigitChar(d: nat): (c: char)
    requires d < 10
    ensures '0' <= c <= '9'
  {
    ('0' as int + d) as char
  }

  predicate AllDigits(s: string) {
    forall i :: 0 <= i < |s| ==> '0' <= s[i] <= '9'
  }

  /** The decimal numeral of `n`, without leading zeros. */
  function Digits(n: nat): (s: string)
    ensures |s| >= 1 && AllDigits(s)
  {
    if n < 10 then [DigitChar(n)] else Digits(n / 10) + [DigitChar(n % 10)]
  }

  function Zeros(k: nat): (s: string)
    ensures |s| == k && AllDigits(s)
  {
    if k == 0 then "" else Zeros(k - 1) + "0"
  }

  /** `"{:05d}".format(n)`: the numeral of `n`, padded on the left with
      zeros to five characters; longer numerals are kept whole. */
  function ZeroPad5(n: nat): (s: string)
    ensures AllDigits(s)
    ensures |s| == if |Digits(n)| < 5 then 5 else |Digits(n)|
  {
    if |Digits(n)| < 5 then Zeros(5 - |Digits(n)|) + Digits(n) else Digits(n)
  }

  /** The number a string of decimal digits denotes. */
  function DecimalValue(s: string): nat
    requires AllDigits(s)
  {
    if |s| == 0 then 0
    else 10 * DecimalValue(s[..|s| - 1]) + (s[|s| - 1] as int - '0' as int)
  }

  lemma {:induction false} DigitsValue(n: nat)
    ensures DecimalValue(Digits(n)) == n
  {
    if n >= 10 {
      DigitsValue(n / 10);
      var s := Digits(n);
      assert s[..|s| - 1] == Digits(n / 10);
    }
  }

  lemma {:induction false} LeadingZerosValue(k: nat, s: string)
    requires AllDigits(s)
    ensures DecimalValue(Zeros(k) + s) == DecimalValue(s)
    decreases |s|, k
  {
    var t := Zeros(k) + s;
    if |s| == 0 {
      assert t == Zeros(k);
      ZerosValue(k);
    } else {
      assert t[..|t| - 1] == Zeros(k) + s[..|s| - 1];
      LeadingZerosValue(k, s[..|s| - 1]);
    }
  }

  lemma {:induction false} ZerosValue(k: nat)
    ensures DecimalValue(Zeros(k)) == 0
  {
    if k > 0 {
      assert Zeros(k)[..k - 1] == Zeros(k - 1);
      ZerosValue(k - 1);
    }
  }

  /** Reading a padded numeral back gives the number: the padding loses
      nothing. */
  lemma ZeroPad5Value(n: nat)
    ensures DecimalValue(ZeroPad5(n)) == n
  {
    DigitsValue(n);
    if |Digits(n)| < 5 {
      LeadingZerosValue(5 - |Digits(n)|, Digits(n));
    }
  }

  /** `prefix + "_{:05d}".format(counter)`. */
  function NumberedName(prefix: string, counter: nat): string {
    prefix + "_" + ZeroPad5(counter)
  }

  /** Different counters give different names under the same prefix. */
  lemma NumberedNamesDistinct(prefix: string, a: nat, b: nat)
    requires a != b
    ensures NumberedName(prefix, a) != NumberedName(prefix, b)
  {
    NumberedNameCounter(prefix, a);
    NumberedNameCounter(prefix, b);
  }

  /** The counter a name `prefix_NNNNN` carries: the number its digits
      after `prefix_` denote. Other names carry none. */
  function CounterOf(prefix: string, name: string): Option<nat> {
    if |name| > |prefix| && name[..|prefix|] == prefix && name[|prefix|] == '_'
       && AllDigits(name[|prefix| + 1..])
    then Some(DecimalValue(name[|prefix| + 1..]))
    else None
  }

  /** The counter can be read back from the name. */
  lemma NumberedNameCounter(prefix: string, n: nat)
    ensures CounterOf(prefix, NumberedName(prefix, n)) == Some(n)
  {
    var name := NumberedName(prefix, n);
    assert name[..|prefix|] == prefix && name[|prefix|] == '_';
    assert name[|prefix| + 1..] == ZeroPad5(n);
    ZeroPad5Value(n);
  }

  // ---------------------------------------------------------------------
  // The corpus-preparation plan

  datatype Folder = Folder(listing: seq<string>, existing: set<string>)

  /** Whether the label file is copied from the folder or generated from
      the text file. */
  datatype LabSource = CopyLab | CreateLab

  /** One kept example: its base name in the source folder, the stem of its
      processed artifacts, and where its label file comes from. */
  datatype Example = Example(base: string, target: string, lab: LabSource)

  function LabSourceOf(base: string, existing: set<string>): (s: LabSource)
    ensures s == CopyLab <==> base + ".lab" in existing
  {
    if base + ".lab" in existing then CopyLab else CreateLab
  }

  /** The stem of the processed artifacts: the numbered name when a prefix
      is given, the base name otherwise. */
  function TargetStem(prefix: Option<string>, base: string, counter: nat): string {
    if prefix.Some? then NumberedName(prefix.value, counter) else base
  }

  function ExampleBases(examples: seq<Example>): (bases: seq<string>)
    ensures |bases| == |examples|
    ensures forall i :: 0 <= i < |examples| ==> bases[i] == examples[i].base
  {
    if |examples| == 0 then []
    else ExampleBases(examples[..|examples| - 1]) + [examples[|examples| - 1].base]
  }

  /** The processing loops of one folder: the shared counter goes up by one
      before each example, and the example is named after it. */
  method NumberExamples(kept: seq<string>, existing: set<string>, prefix: Option<string>, counter0: nat)
    returns (examples: seq<Example>, counter: nat)
    ensures counter == counter0 + |kept|
    ensures |examples| == |kept|
    ensures forall i :: 0 <= i < |kept| ==>
      examples[i] == Example(kept[i], TargetStem(prefix, kept[i], counter0 + i + 1), LabSourceOf(kept[i], existing))
    ensures ExampleBases(examples) == kept
  {
    examples := [];
    counter := counter0;
    var index := 0;
    while index < |kept|
      invariant index <= |kept|
      invariant counter == counter0 + index
      invariant |examples| == index
      invariant forall i :: 0 <= i < index ==>
        examples[i] == Example(kept[i], TargetStem(prefix, kept[i], counter0 + i + 1), LabSourceOf(kept[i], existing))
    {
      counter := counter + 1;
      var base := kept[index];
      examples := examples + [Example(base, TargetStem(prefix, base, counter), LabSourceOf(base, existing))];
      index := index + 1;
    }
    forall i | 0 <= i < |examples| ensures examples[i].base == kept[i] {
    }
    SameBases(examples, kept);
  }

  lemma SameBases(examples: seq<Example>, kept: seq<string>)
    requires |examples| == |kept|
    requires forall i :: 0 <= i < |examples| ==> examples[i].base == kept[i]
    ensures ExampleBases(examples) == kept
  {
  }

  /** The examples of one folder, numbered by a counter that stood at
      `start` before the first of them: each artifact stem comes from the
      counter value of its example, and each label file is copied or
      created according to the folder. */
  predicate NumberedFrom(examples: seq<Example>, prefix: Option<string>, existing: set<string>, start: nat) {
    NumberedTargets(examples, prefix, start) && LabsFrom(examples, existing)
  }

  predicate NumberedTargets(examples: seq<Example>, prefix: Option<string>, start: nat) {
    forall i :: 0 <= i < |examples| ==> examples[i].target == TargetStem(prefix, examples[i].base, start + i + 1)
  }

  predicate LabsFrom(examples: seq<Example>, existing: set<string>) {
    forall i :: 0 <= i < |examples| ==> examples[i].lab == LabSourceOf(examples[i].base, existing)
  }

  /** One folder of `phase_1_prepare_corpus`: its scan, then its
      processing loop continuing the shared counter from `counter0`. */
  method PrepareFolder(folder: Folder, prefix: Option<string>, counter0: nat)
    returns (examples: seq<Example>, counter: nat)
    ensures IsPairedScan(ExampleBases(examples), folder.listing, folder.existing)
    ensures counter == counter0 + |examples|
    ensures NumberedFrom(examples, prefix, folder.existing, counter0)
  {
    var kept := ScanFolder(folder.listing, folder.existing);
    examples, counter := NumberExamples(kept, folder.existing, prefix, counter0);
  }

  /** `phase_1_prepare_corpus` without its audio and file I/O: scan the
      training folder and the optional development folder, then number the
      training examples from 1 and the development examples after them.
      `total` is the final value of the shared counter `total_files`. */
  method PrepareCorpus(trainFolder: Folder, devFolder: Option<Folder>, prefix: Option<string>)
    returns (train: seq<Example>, dev: seq<Example>, total: nat)
    ensures IsPairedScan(ExampleBases(train), trainFolder.listing, trainFolder.existing)
    ensures NumberedFrom(train, prefix, trainFolder.existing, 0)
    ensures devFolder.Some? ==> IsPairedScan(ExampleBases(dev), devFolder.value.listing, devFolder.value.existing)
    ensures devFolder.Some? ==> NumberedFrom(dev, prefix, devFolder.value.existing, |train|)
    ensures devFolder.None? ==> dev == []
    ensures total == |train| + |dev|
    ensures prefix.Some? ==> NoDuplicates(Targets(train + dev))
  {
    var counter;
    train, counter := PrepareFolder(trainFolder, prefix, 0);
    if devFolder.Some? {
      dev, total := PrepareFolder(devFolder.value, prefix, counter);
    } else {
      dev, total := [], counter;
      assert NumberedTargets(dev, prefix, |train|);
    }
    if prefix.Some? {
      NumberedTargetsDistinct(train, dev, prefix);
    }
  }

  function Targets(examples: seq<Example>): (targets: seq<string>)
    ensures |targets| == |examples|
    ensures forall i :: 0 <= i < |examples| ==> targets[i] == examples[i].target
  {
    if |examples| == 0 then []
    else Targets(examples[..|examples| - 1]) + [examples[|examples| - 1].target]
  }

  /** With a prefix, the counter numbers every example of both folders
      differently, so no two examples share an artifact stem. */
  lemma NumberedTargetsDistinct(train: seq<Example>, dev: seq<Example>, prefix: Option<string>)
    requires prefix.Some?
    requires NumberedTargets(train, prefix, 0) && NumberedTargets(dev, prefix, |train|)
    ensures NoDuplicates(Targets(train + dev))
  {
    NumberedTargetsAppend(train, dev, prefix, 0);
    NumberedTargetsUnique(train + dev, prefix);
  }

  /** Numbering two folders in a row is numbering their concatenation. */
  lemma NumberedTargetsAppend(a: seq<Example>, b: seq<Example>, prefix: Option<string>, start: nat)
    requires NumberedTargets(a, prefix, start) && NumberedTargets(b, prefix, start + |a|)
    ensures NumberedTargets(a + b, prefix, start)
  {
    var all := a + b;
    forall k | 0 <= k < |all|
      ensures all[k].target == TargetStem(prefix, all[k].base, start + k + 1)
    {
      if k < |a| {
        assert all[k] == a[k];
      } else {
        assert all[k] == b[k - |a|];
      }
    }
  }

  lemma NumberedTargetsUnique(all: seq<Example>, prefix: Option<string>)
    requires prefix.Some? && NumberedTargets(all, prefix, 0)
    ensures NoDuplicates(Targets(all))
  {
    var targets := Targets(all);
    forall i, j | 0 <= i < j < |targets| ensures targets[i] != targets[j] {
      TargetsDiffer(all, prefix, i, j);
    }
  }

  lemma TargetsDiffer(all: seq<Example>, prefix: Option<string>, i: nat, j: nat)
    requires prefix.Some? && NumberedTargets(all, prefix, 0)
    requires i < j < |all|
    ensures all[i].target != all[j].target
  {
    TargetCounter(all, prefix, i);
    TargetCounter(all, prefix, j);
  }

  /** The counter of an example can be read back from its artifact stem. */
  lemma TargetCounter(all: seq<Example>, prefix: Option<string>, i: nat)
    requires prefix.Some? && NumberedTargets(all, prefix, 0)
    requires i < |all|
    ensures CounterOf(prefix.value, all[i].target) == Some(i + 1)
  {
    assert all[i].target == NumberedName(prefix.value, i + 1);
    NumberedNameCounter(prefix.value, i + 1);
  }
}
