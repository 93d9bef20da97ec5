/** `save_to_ini`: the models.ini ledger of downloads. A ledger is the
    parsed INI file: section names in file order, and for each section its
    options. Sections are named after the file, with `_1`, `_2`, ...
    appended to avoid clashes, and a section carrying the same URL is
    updated in place. */
module Ledger {
  import opened Wrappers
  import opened Text
  import opened Paths

  /** The options of one section, `option -> value`. */
  type Section = map<string, string>

  datatype Ledger = Ledger(order: seq<string>, sections: map<string, Section>)

  /** configparser's default section: never reported by `has_section`,
      and `add_section` refuses it. */
  const DefaultSection: string := "DEFAULT"

  /** What one call records. */
  datatype Entry = Entry(url: string, subdirectory: string, filename: string, filepath: string, hash: string)

  /** A well-formed ledger: every section named once, in order, and the
      default section never among them. */
  predicate Valid(l: Ledger) {
    && (forall i, j :: 0 <= i < j < |l.order| ==> l.order[i] != l.order[j])
    && (forall n :: n in l.order ==> n in l.sections)
    && (forall n :: n in l.sections ==> n in l.order)
    && DefaultSection !in l.sections
  }

  /** Whether the ledger has a section called `name`; the defaults
      section never counts as one. */
  predicate HasSection(sections: map<string, Section>, name: string) {
    name in sections && name != DefaultSection
  }

  /** Whether section `name` already records `url`. */
  predicate RecordsUrl(sections: map<string, Section>, name: string, url: string) {
    name in sections && "url" in sections[name] && sections[name]["url"] == url
  }

  /** The section name's base: the file name with every '.' made '_'. */
  function SectionBase(filename: string): string {
    ReplaceChar(filename, '.', '_')
  }

  /** The n-th name tried: the base itself, then `base_1`, `base_2`, ... */
  function Candidate(base: string, n: nat): string {
    if n == 0 then base else base + "_" + NatToString(n)
  }

  /** Different positions in the chain give different names. */
  lemma CandidateInjective(base: string, m: nat, n: nat)
    requires Candidate(base, m) == Candidate(base, n)
    ensures m == n
  {
    if m != 0 && n != 0 {
      var p := base + "_";
      assert Candidate(base, m) == p + NatToString(m);
      assert Candidate(base, n) == p + NatToString(n);
      assert NatToString(m) == Candidate(base, m)[|p|..];
      assert NatToString(n) == Candidate(base, n)[|p|..];
      NatToStringInjective(m, n);
    }
  }

  /** The names tried before position n. */
  function Tried(base: string, n: nat): set<string> {
    set m | 0 <= m < n :: Candidate(base, m)
  }

  /** The position the loop over taken section names stops at,
      searching from position n: the first name in the chain that is
      either free or already records `url`. */
  function ChooseIndex(sections: map<string, Section>, base: string, url: string, n: nat): (m: nat)
    ensures m >= n
    ensures !HasSection(sections, Candidate(base, m)) || RecordsUrl(sections, Candidate(base, m), url)
    ensures forall k :: n <= k < m ==>
              HasSection(sections, Candidate(base, k)) && !RecordsUrl(sections, Candidate(base, k), url)
    decreases |sections.Keys - Tried(base, n)|
  {
    var c := Candidate(base, n);
    if !HasSection(sections, c) || RecordsUrl(sections, c, url) then n
    else
      ChainShrinks(sections, base, n);
      ChooseIndex(sections, base, url, n + 1)
  }

  lemma ChainShrinks(sections: map<string, Section>, base: string, n: nat)
    requires Candidate(base, n) in sections
    ensures |sections.Keys - Tried(base, n + 1)| < |sections.Keys - Tried(base, n)|
  {
    var c := Candidate(base, n);
    if c in Tried(base, n) {
      var m :| 0 <= m < n && Candidate(base, m) == c;
      CandidateInjective(base, m, n);
    }
    assert Tried(base, n + 1) == Tried(base, n) + {c};
    assert sections.Keys - Tried(base, n + 1) == (sections.Keys - Tried(base, n)) - {c};
  }

  /** The options a save writes over the section's previous ones. The hash
      is written only when given, so an earlier hash survives a save without
      one. */
  function Fields(prev: Section, e: Entry, storedPath: string, timestamp: string): (s: Section)
    ensures s.Keys == prev.Keys + {"url", "subdirectory", "filename", "filepath", "timestamp"} + (if e.hash != "" then {"hash"} else {})
    ensures s["url"] == e.url && s["subdirectory"] == e.subdirectory && s["filename"] == e.filename
    ensures s["filepath"] == storedPath && s["timestamp"] == timestamp
    ensures "hash" in s ==> s["hash"] == if e.hash != "" then e.hash else prev["hash"]
    ensures forall k :: k in prev && k !in {"url", "subdirectory", "filename", "filepath", "hash", "timestamp"} ==> s[k] == prev[k]
  {
    var s := prev["url" := e.url]["subdirectory" := e.subdirectory]["filename" := e.filename]["filepath" := storedPath];
    var s := if e.hash != "" then s["hash" := e.hash] else s;
    s["timestamp" := timestamp]
  }

  /** The section a save of `e` goes to. */
  function TargetSection(l: Ledger, e: Entry): string {
    var base := SectionBase(e.filename);
    Candidate(base, ChooseIndex(l.sections, base, e.url, 0))
  }

  /** `save_to_ini` on a ledger read from disk, with `root` the models
      directory the stored path is made relative to, `cwd` the working
      directory and `timestamp` the formatted clock reading. `None` when
      the call raises, in which case nothing is written: the section would
      be the default one, or the path is empty. Values are stored as given
      (no interpolation). */
  function Record(l: Ledger, root: string, cwd: string, e: Entry, timestamp: string): (r: Option<Ledger>)
    ensures r.None? <==> SectionBase(e.filename) == DefaultSection || e.filepath == ""
    ensures r.Some? ==> var name := TargetSection(l, e);
      && name in r.value.sections
      && RecordsUrl(r.value.sections, name, e.url)
      && "filepath" in r.value.sections[name]
      && Some(r.value.sections[name]["filepath"]) == RelPath(e.filepath, root, cwd)
      && (forall n :: n in l.sections && n != name ==> n in r.value.sections && r.value.sections[n] == l.sections[n])
      && r.value.sections.Keys == l.sections.Keys + {name}
      && r.value.order == (if name in l.sections then l.order else l.order + [name])
      && r.value.sections[name] ==
           Fields(if name in l.sections then l.sections[name] else map[], e, RelPath(e.filepath, root, cwd).value, timestamp)
  {
    var name := TargetSection(l, e);
    TargetIsDefaultOnlyForBase(l, e);
    if name == DefaultSection then None
    else
      match RelPath(e.filepath, root, cwd)
      case None => None
      case Some(stored) =>
        var prev := if name in l.sections then l.sections[name] else map[];
        var order := if name in l.sections then l.order else l.order + [name];
        Some(Ledger(order, l.sections[name := Fields(prev, e, stored, timestamp)]))
  }

  /** A numbered name has an underscore, which the default name lacks. */
  lemma NumberedNotDefault(base: string, m: nat)
    ensures Candidate(base, m) == DefaultSection ==> m == 0
  {
    if m != 0 {
      var c := Candidate(base, m);
      assert c[|base|] == '_';
      assert forall i :: 0 <= i < |DefaultSection| ==> DefaultSection[i] != '_';
    }
  }

  /** Only the bare base can be the default section's name. */
  lemma TargetIsDefaultOnlyForBase(l: Ledger, e: Entry)
    ensures TargetSection(l, e) == DefaultSection <==> SectionBase(e.filename) == DefaultSection
  {
    var base := SectionBase(e.filename);
    var m := ChooseIndex(l.sections, base, e.url, 0);
    NumberedNotDefault(base, m);
    if base == DefaultSection {
      assert !HasSection(l.sections, Candidate(base, 0));
    }
  }

  /** Saving keeps the ledger well formed. */
  lemma RecordKeepsValid(l: Ledger, root: string, cwd: string, e: Entry, timestamp: string)
    requires Valid(l)
    requires Record(l, root, cwd, e, timestamp).Some?
    ensures Valid(Record(l, root, cwd, e, timestamp).value)
  {
    var name := TargetSection(l, e);
    TargetIsDefaultOnlyForBase(l, e);
    var r := Record(l, root, cwd, e, timestamp).value;
    if name !in l.sections {
      forall i, j | 0 <= i < j < |r.order|
        ensures r.order[i] != r.order[j]
      {
        if j == |l.order| {
          assert r.order[i] == l.order[i];
        }
      }
    }
  }

  /** Saving the same download twice gives the same ledger as saving it
      once: the second save finds the section the first one wrote. */
  lemma RecordIdempotent(l: Ledger, root: string, cwd: string, e: Entry, timestamp: string)
    requires Record(l, root, cwd, e, timestamp).Some?
    ensures var l1 := Record(l, root, cwd, e, timestamp).value;
      TargetSection(l1, e) == TargetSection(l, e)
      && Record(l1, root, cwd, e, timestamp) == Some(l1)
  {
    var l1 := Record(l, root, cwd, e, timestamp).value;
    RecordKeepsTarget(l, root, cwd, e, timestamp);
    var name := TargetSection(l, e);
    var prev := if name in l.sections then l.sections[name] else map[];
    var stored := RelPath(e.filepath, root, cwd).value;
    FieldsIdempotent(prev, e, stored, timestamp);
    assert l1.sections[name] == Fields(prev, e, stored, timestamp);
    assert l1.sections[name := Fields(l1.sections[name], e, stored, timestamp)] == l1.sections;
  }

  /** After a save, the next save of the same entry picks the same section. */
  lemma RecordKeepsTarget(l: Ledger, root: string, cwd: string, e: Entry, timestamp: string)
    requires Record(l, root, cwd, e, timestamp).Some?
    ensures TargetSection(Record(l, root, cwd, e, timestamp).value, e) == TargetSection(l, e)
  {
    var l1 := Record(l, root, cwd, e, timestamp).value;
    var base := SectionBase(e.filename);
    var m := ChooseIndex(l.sections, base, e.url, 0);
    var name := Candidate(base, m);
    forall k | 0 <= k < m
      ensures Candidate(base, k) in l1.sections && l1.sections[Candidate(base, k)] == l.sections[Candidate(base, k)]
    {
      if Candidate(base, k) == name {
        CandidateInjective(base, k, m);
      }
    }
    SameStop(l.sections, l1.sections, base, e.url, m, 0);
  }

  /** Writing the same fields twice changes nothing the second time. */
  lemma FieldsIdempotent(prev: Section, e: Entry, stored: string, timestamp: string)
    ensures var f := Fields(prev, e, stored, timestamp); Fields(f, e, stored, timestamp) == f
  {
    var f := Fields(prev, e, stored, timestamp);
    var g := Fields(f, e, stored, timestamp);
    assert g.Keys == f.Keys;
    assert forall k :: k in g ==> g[k] == f[k];
  }

  /** The search stops at the same place in the updated ledger: every name
      before the stop is untouched and still records another URL, and the
      stop itself now records the URL. */
  lemma {:induction false} SameStop(s0: map<string, Section>, s1: map<string, Section>, base: string, url: string, m: nat, n: nat)
    requires n <= m
    requires m == ChooseIndex(s0, base, url, n)
    requires Candidate(base, m) != DefaultSection && RecordsUrl(s1, Candidate(base, m), url)
    requires forall k :: n <= k < m ==> Candidate(base, k) in s1 && s1[Candidate(base, k)] == s0[Candidate(base, k)]
    ensures ChooseIndex(s1, base, url, n) == m
    decreases m - n
  {
    if n < m {
      SameStop(s0, s1, base, url, m, n + 1);
    }
  }

  /** The no-duplicate-URL rule does not hold: when the chain has a gap
      (the bare name free while `<name>_1` records the URL), saving that
      URL again adds a second section carrying it. */
  lemma DuplicateUrlPossible(l: Ledger, root: string, cwd: string, e: Entry, timestamp: string)
    requires SectionBase(e.filename) != DefaultSection && e.filepath != ""
    requires SectionBase(e.filename) !in l.sections
    requires RecordsUrl(l.sections, Candidate(SectionBase(e.filename), 1), e.url)
    ensures var r := Record(l, root, cwd, e, timestamp);
      var base := SectionBase(e.filename);
      && r.Some?
      && base != Candidate(base, 1)
      && RecordsUrl(r.value.sections, base, e.url)
      && RecordsUrl(r.value.sections, Candidate(base, 1), e.url)
  {
    var base := SectionBase(e.filename);
    assert |Candidate(base, 1)| > |base|;
    assert TargetSection(l, e) == base;
  }

  // ---------------------------------------------------------------------
  // Interpolation syntax check of ConfigParser.set
  // ---------------------------------------------------------------------

  /** Escaped percent signs (two in a row) removed, left to right. */
  function DropEscapedPercents(v: string): (r: string)
    ensures |r| <= |v|
  {
    if |v| >= 2 && v[0] == '%' && v[1] == '%' then DropEscapedPercents(v[2..])
    else if v == [] then []
    else [v[0]] + DropEscapedPercents(v[1..])
  }

  /** Where a `%(name)s` reference starting at the front of `v` ends, if
      one does: `name` is non-empty and runs to the first ')'. */
  function ReferenceEnd(v: string): (e: Option<nat>)
    ensures e.Some? ==> 4 < e.value <= |v|
  {
    if |v| >= 2 && v[0] == '%' && v[1] == '(' && ')' in v[2..] then
      var close := 2 + IndexOf(v[2..], ')');
      if close > 2 && close + 1 < |v| && v[close + 1] == 's' then Some(close + 2) else None
    else None
  }

  /** Every well-formed interpolation reference (a '%', a parenthesised
      non-empty name, an 's') removed, left to right. */
  function DropReferences(v: string): string
    decreases |v|
  {
    if v == [] then []
    else
      match ReferenceEnd(v)
      case Some(e) => DropReferences(v[e..])
      case None => [v[0]] + DropReferences(v[1..])
  }

  /** BasicInterpolation.before_set accepts the value: every '%' is part of
      an escape or a reference. */
  predicate Settable(v: string) {
    '%' !in DropReferences(DropEscapedPercents(v))
  }

  lemma {:induction false} DropEscapedPercentsPlain(a: string, c: string)
    requires '%' !in a
    ensures DropEscapedPercents(a + c) == a + DropEscapedPercents(c)
    decreases |a|
  {
    if a != [] {
      assert (a + c)[0] == a[0];
      assert (a + c)[1..] == a[1..] + c;
      DropEscapedPercentsPlain(a[1..], c);
    } else {
      assert a + c == c;
    }
  }

  lemma {:induction false} DropReferencesPlain(a: string, c: string)
    requires '%' !in a
    ensures DropReferences(a + c) == a + DropReferences(c)
    decreases |a|
  {
    if a != [] {
      assert (a + c)[0] == a[0];
      assert (a + c)[1..] == a[1..] + c;
      DropReferencesPlain(a[1..], c);
    } else {
      assert a + c == c;
    }
  }

  /** A value without '%' always passes the check. */
  lemma PlainValueSettable(v: string)
    requires '%' !in v
    ensures Settable(v)
  {
    DropEscapedPercentsPlain(v, "");
    DropReferencesPlain(v, "");
    assert v + "" == v;
  }

  /** A single '%' that starts neither an escape nor a reference, as in a
      percent-encoded URL such as `.../my%20model.safetensors`, fails the
      check. */
  lemma LonePercentNotSettable(a: string, b: string)
    requires '%' !in a && '%' !in b
    requires b == [] || b[0] != '('
    ensures !Settable(a + "%" + b)
  {
    var t := "%" + b;
    assert a + "%" + b == a + t;
    DropEscapedPercentsPlain(a, t);
    assert t[1..] == b;
    DropEscapedPercentsPlain(b, "");
    assert b + "" == b;
    assert DropEscapedPercents(t) == t;
    DropReferencesPlain(a, t);
    assert ReferenceEnd(t).None?;
    assert DropReferences(t)[0] == '%';
  }

  /** Every value `save_to_ini` sets passes the check. */
  predicate AllSettable(e: Entry, stored: string, timestamp: string) {
    && Settable(e.url) && Settable(e.subdirectory) && Settable(e.filename)
    && Settable(stored) && Settable(e.hash) && Settable(timestamp)
  }

  /** `save_to_ini` as written: ConfigParser's default interpolation checks
      each value as it is set and raises on a rejected one, so the file is
      not written. */
  function RecordAsWritten(l: Ledger, root: string, cwd: string, e: Entry, timestamp: string): (r: Option<Ledger>)
    ensures r.Some? <==> Record(l, root, cwd, e, timestamp).Some? && AllSettable(e, RelPath(e.filepath, root, cwd).value, timestamp)
    ensures r.Some? ==> r == Record(l, root, cwd, e, timestamp)
  {
    match Record(l, root, cwd, e, timestamp)
    case None => None
    case Some(l1) => if AllSettable(e, RelPath(e.filepath, root, cwd).value, timestamp) then Some(l1) else None
  }

  /** A download from a percent-encoded URL is not recorded by the code as
      written, although the corrected save records it. */
  lemma PercentEncodedUrlNotRecorded(l: Ledger, root: string, cwd: string, e: Entry, timestamp: string, a: string, b: string)
    requires Record(l, root, cwd, e, timestamp).Some?
    requires e.url == a + "%" + b
    requires '%' !in a && '%' !in b && (b == [] || b[0] != '(')
    ensures RecordAsWritten(l, root, cwd, e, timestamp).None?
  {
    LonePercentNotSettable(a, b);
  }
}
