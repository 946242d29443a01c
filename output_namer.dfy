/** Choosing the PDF's file name: `get_output_base_path` builds `D-S.pdf`
    from the date and the subject, and `get_exclusive_outfile` finds the
    first free `stem_k.suffix` by exclusive creation. The output directory
    is the set of names it holds; an exclusive create is an atomic
    "insert if absent". */
module OutputNamer {
  import opened Results
  import opened Strings
  import opened Dates

  /** The characters `[<>:"/\\|?*]` that the subject filter removes. */
  const Illegal: set<char> := {'<', '>', ':', '"', '/', '\\', '|', '?', '*'}

  /** `date.strftime("%Y-%m-%d") if date else "nodate"`. */
  function FileDate(date: Option<DateTime>): string {
    match date
    case None => "nodate"
    case Some(d) => FormatYmd(d)
  }

  /** The subject without illegal characters and with spaces turned into `_`. */
  function SafeSubject(subject: string): (r: string)
    ensures forall i | 0 <= i < |r| :: r[i] !in Illegal && r[i] != ' '
  {
    ReplaceChar(RemoveChars(subject, Illegal), ' ', '_')
  }

  /** `f"{file_date}-{safe_subject}.pdf"`. */
  function BaseFilename(date: Option<DateTime>, subject: string): string {
    FileDate(date) + "-" + SafeSubject(subject) + ".pdf"
  }

  /** `output_dir / Path(base_filename)`: the name the PDF gets inside the output directory. */
  function GetOutputBasePath(date: Option<DateTime>, subject: string): (name: string)
    ensures StartsWith(name, FileDate(date) + "-")
    ensures |name| == |FileDate(date)| + 1 + |SafeSubject(subject)| + 4
    ensures name[|name| - 4..] == ".pdf"
    ensures name[|FileDate(date)| + 1..|name| - 4] == SafeSubject(subject)
  {
    var name := BaseFilename(date, subject);
    assert name[..|FileDate(date) + "-"|] == FileDate(date) + "-";
    name
  }

  /** The subject filter works one character at a time: a removed character
      leaves nothing, a space leaves `_`, anything else is kept. */
  lemma SafeSubjectChar(c: char)
    ensures SafeSubject([c]) == if c in Illegal then "" else if c == ' ' then "_" else [c]
  {
    assert [c][1..] == [];
    assert RemoveChars([c], Illegal) == if c in Illegal then [] else [c];
  }

  /** ... in order, so it distributes over concatenation. */
  lemma SafeSubjectAppend(a: string, b: string)
    ensures SafeSubject(a + b) == SafeSubject(a) + SafeSubject(b)
  {
    RemoveCharsAppend(a, b, Illegal);
    ReplaceCharAppend(RemoveChars(a, Illegal), RemoveChars(b, Illegal), ' ', '_');
  }

  /** A subject already free of illegal characters and spaces is used as it is. */
  lemma SafeSubjectClean(subject: string)
    requires forall i | 0 <= i < |subject| :: subject[i] !in Illegal && subject[i] != ' '
    ensures SafeSubject(subject) == subject
  {
    var r := RemoveChars(subject, Illegal);
    RemoveCharsNone(subject, Illegal);
    assert ReplaceChar(r, ' ', '_') == r;
  }

  /** No path separator, so a name stays inside its directory. */
  predicate NoSeparator(s: string) {
    forall i | 0 <= i < |s| :: s[i] != '/' && s[i] != '\\'
  }

  lemma NoSeparatorConcat(a: string, b: string)
    requires NoSeparator(a) && NoSeparator(b)
    ensures NoSeparator(a + b)
  {
    forall i | 0 <= i < |a + b|
      ensures (a + b)[i] != '/' && (a + b)[i] != '\\'
    {
      if i < |a| {
        assert (a + b)[i] == a[i];
      } else {
        assert (a + b)[i] == b[i - |a|];
      }
    }
  }

  /** The dated prefix holds only digits, dashes and the letters of `nodate`,
      and the subject no separator, so the file never leaves the output directory. */
  lemma BaseFilenameStaysInDir(date: Option<DateTime>, subject: string)
    ensures NoSeparator(BaseFilename(date, subject))
  {
    var d := FileDate(date);
    if date.Some? {
      var t := date.value;
      var y, m, dd := Decimal(t.year), Pad2(t.month), Pad2(t.day);
      assert d == y + "-" + m + "-" + dd;
      NoSeparatorConcat(y, "-");
      NoSeparatorConcat(y + "-", m);
      NoSeparatorConcat(y + "-" + m, "-");
      NoSeparatorConcat(y + "-" + m + "-", dd);
    }
    var s := SafeSubject(subject);
    assert NoSeparator(s) by {
      forall i | 0 <= i < |s|
        ensures s[i] != '/' && s[i] != '\\'
      {
        assert s[i] !in Illegal;
      }
    }
    NoSeparatorConcat(d, "-");
    NoSeparatorConcat(d + "-", s);
    NoSeparatorConcat(d + "-" + s, ".pdf");
  }

  /** `PurePath.suffix`: from the last dot on, unless that dot leads the name
      or ends it. */
  function Suffix(name: string): string {
    var i := LastIndexOf(name, '.');
    if 0 < i < |name| - 1 then name[i..] else ""
  }

  /** `PurePath.stem`: the name without its suffix. */
  function Stem(name: string): string {
    var i := LastIndexOf(name, '.');
    if 0 < i < |name| - 1 then name[..i] else name
  }

  /** Stem and suffix split the name. */
  lemma StemSuffix(name: string)
    ensures Stem(name) + Suffix(name) == name
  {
    var i := LastIndexOf(name, '.');
    if 0 < i < |name| - 1 {
      assert name[..i] + name[i..] == name;
    }
  }

  /** Any non-empty `x` followed by `.pdf` splits into `x` and `.pdf`, however
      many dots `x` holds. */
  lemma PdfSplit(x: string)
    requires |x| > 0
    ensures Stem(x + ".pdf") == x
    ensures Suffix(x + ".pdf") == ".pdf"
  {
    var name := x + ".pdf";
    var i := LastIndexOf(name, '.');
    assert name[|x|] == '.';
    assert name[|x| + 1] == 'p' && name[|x| + 2] == 'd' && name[|x| + 3] == 'f';
    assert i == |x|;
    assert name[..i] == x;
    assert name[i..] == ".pdf";
  }

  lemma BaseSplit(date: Option<DateTime>, subject: string)
    ensures Stem(BaseFilename(date, subject)) == FileDate(date) + "-" + SafeSubject(subject)
    ensures Suffix(BaseFilename(date, subject)) == ".pdf"
  {
    var x := FileDate(date) + "-" + SafeSubject(subject);
    assert BaseFilename(date, subject) == x + ".pdf";
    PdfSplit(x);
  }

  /** `f"{stem}_{counter}{suffix}"`. */
  function Candidate(stem: string, k: nat, suffix: string): string {
    stem + "_" + Decimal(k) + suffix
  }

  /** Different counters give different names, so each try is a new name. */
  lemma CandidateInjective(stem: string, suffix: string, j: nat, k: nat)
    requires Candidate(stem, j, suffix) == Candidate(stem, k, suffix)
    ensures j == k
  {
    var cj, ck := Candidate(stem, j, suffix), Candidate(stem, k, suffix);
    assert |Decimal(j)| == |Decimal(k)|;
    var lo, hi := |stem| + 1, |cj| - |suffix|;
    assert cj[lo..hi] == Decimal(j);
    assert ck[lo..hi] == Decimal(k);
    DecimalInjective(j, k);
  }

  /** The names tried with counters below `k`. */
  ghost function Tried(stem: string, suffix: string, k: nat): set<string>
    decreases k
  {
    if k <= 1 then {} else Tried(stem, suffix, k - 1) + {Candidate(stem, k - 1, suffix)}
  }

  lemma {:induction false} TriedMembers(stem: string, suffix: string, k: nat, c: string)
    requires c in Tried(stem, suffix, k)
    ensures exists j | 1 <= j < k :: c == Candidate(stem, j, suffix)
    decreases k
  {
    if c != Candidate(stem, k - 1, suffix) {
      TriedMembers(stem, suffix, k - 1, c);
    }
  }

  lemma {:induction false} TriedSize(stem: string, suffix: string, k: nat)
    requires k >= 1
    ensures |Tried(stem, suffix, k)| == k - 1
    decreases k
  {
    if k > 1 {
      TriedSize(stem, suffix, k - 1);
      var c := Candidate(stem, k - 1, suffix);
      if c in Tried(stem, suffix, k - 1) {
        TriedMembers(stem, suffix, k - 1, c);
        var j :| 1 <= j < k - 1 && c == Candidate(stem, j, suffix);
        CandidateInjective(stem, suffix, j, k - 1);
      }
    }
  }

  lemma {:induction false} TriedWithin(names: set<string>, stem: string, suffix: string, k: nat)
    requires forall j | 1 <= j < k :: Candidate(stem, j, suffix) in names
    ensures Tried(stem, suffix, k) <= names
    decreases k
  {
    if k > 1 {
      TriedWithin(names, stem, suffix, k - 1);
    }
  }

  /** When every counter below `k` is taken, there are at least `k - 1`
      names: the search cannot run past `|names| + 1`. */
  lemma TakenBound(names: set<string>, stem: string, suffix: string, k: nat)
    requires k >= 1
    requires forall j | 1 <= j < k :: Candidate(stem, j, suffix) in names
    ensures k - 1 <= |names|
  {
    TriedSize(stem, suffix, k);
    TriedWithin(names, stem, suffix, k);
    var tried := Tried(stem, suffix, k);
    assert names == tried + (names - tried);
    assert tried * (names - tried) == {};
  }

  /** The least counter from `k` on whose name is free. */
  function FirstFree(names: set<string>, stem: string, suffix: string, k: nat): (r: nat)
    requires k >= 1
    requires forall j | 1 <= j < k :: Candidate(stem, j, suffix) in names
    ensures r >= k && Candidate(stem, r, suffix) !in names
    ensures forall j | 1 <= j < r :: Candidate(stem, j, suffix) in names
    decreases |names| + 1 - k
  {
    TakenBound(names, stem, suffix, k);
    if Candidate(stem, k, suffix) !in names then k
    else FirstFree(names, stem, suffix, k + 1)
  }

  /** A counter whose name is free while every smaller one is taken is the one found. */
  lemma FirstFreeIs(names: set<string>, stem: string, suffix: string, k: nat)
    requires k >= 1
    requires forall j | 1 <= j < k :: Candidate(stem, j, suffix) in names
    requires Candidate(stem, k, suffix) !in names
    ensures FirstFree(names, stem, suffix, 1) == k
  {
  }

  /** The name `get_exclusive_outfile` creates when creation fails exactly
      for names already present. */
  function ExclusiveName(names: set<string>, base: string): (r: string)
    ensures r !in names
  {
    if base !in names then base
    else Candidate(Stem(base), FirstFree(names, Stem(base), Suffix(base), 1), Suffix(base))
  }

  /** The base name when free; otherwise the original stem with the least free
      counter and the original suffix. */
  lemma ExclusiveNameLeast(names: set<string>, base: string)
    ensures base !in names ==> ExclusiveName(names, base) == base
    ensures base in names ==> exists k | k >= 1 ::
      ExclusiveName(names, base) == Candidate(Stem(base), k, Suffix(base)) &&
      forall j | 1 <= j < k :: Candidate(Stem(base), j, Suffix(base)) in names
  {
    if base in names {
      var k := FirstFree(names, Stem(base), Suffix(base), 1);
      assert ExclusiveName(names, base) == Candidate(Stem(base), k, Suffix(base));
    }
  }

  /** The output directory. */
  class OutputDir {
    var names: set<string>

    constructor(existing: set<string>)
      ensures names == existing
    {
      names := existing;
    }

    /** `open(path, 'xb')`: adds the name and succeeds when it is absent,
        fails and changes nothing when it is present. */
    method CreateExclusive(name: string) returns (created: bool)
      modifies this
      ensures created <==> name !in old(names)
      ensures names == old(names) + {name}
    {
      created := name !in names;
      if created {
        names := names + {name};
      }
    }
  }

  /** `get_exclusive_outfile`: the name of the file it creates. */
  method GetExclusiveOutfile(dir: OutputDir, base: string) returns (created: string)
    modifies dir
    ensures created == ExclusiveName(old(dir.names), base)
    ensures created !in old(dir.names)
    ensures dir.names == old(dir.names) + {created}
  {
    ghost var existing := dir.names;
    var ok := dir.CreateExclusive(base);
    created := base;
    var stem, suffix := Stem(base), Suffix(base);
    var counter := 1;
    while !ok
      invariant counter >= 1
      invariant !ok ==> dir.names == existing && base in existing
      invariant !ok ==> forall j | 1 <= j < counter :: Candidate(stem, j, suffix) in existing
      invariant ok ==> created == ExclusiveName(existing, base) && dir.names == existing + {created}
      decreases !ok, |existing| + 1 - counter
    {
      TakenBound(existing, stem, suffix, counter);
      var next := Candidate(stem, counter, suffix);
      ok := dir.CreateExclusive(next);
      if ok {
        created := next;
        FirstFreeIs(existing, stem, suffix, counter);
      } else {
        counter := counter + 1;
      }
    }
  }
}
