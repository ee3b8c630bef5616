/**
 * function/alert.py: the line-by-line reader of the validated-subdomain file, which
 * keeps the lines of the sections named after the domain, and the console alert
 * that lists the discovered subdomains missing from it.
 */
module Alert {
  import opened Optional
  import opened PyStr
  import opened StrOrder

  /** A stripped line that starts with `[` and ends with `]` opens a section (a single
      `[` does not: it does not end with `]`). */
  predicate IsHeader(r: string) {
    |r| >= 2 && r[0] == '[' && r[|r| - 1] == ']'
  }

  /** The test the reader writes, `startswith("[") and endswith("]")`, is `IsHeader`. */
  lemma HeaderTest(r: string)
    ensures StartsWith(r, "[") && EndsWith(r, "]") <==> IsHeader(r)
  {
    if StartsWith(r, "[") && EndsWith(r, "]") {
      assert r[..1] == "[" && r[|r| - 1..] == "]";
      assert r[0] == '[' && r[|r| - 1] == ']';
    }
    if IsHeader(r) {
      assert r[..1] == "[" && r[|r| - 1..] == "]";
    }
  }

  /** `raw_line[1:-1].strip()`: the name a header line gives its section. */
  function SectionName(r: string): string
    requires IsHeader(r)
  {
    Strip(r[1..|r| - 1])
  }

  /** The header names the domain, compared after lower-casing both. */
  predicate NameMatches(r: string, domain: string)
    requires IsHeader(r)
  {
    Lower(SectionName(r)) == Lower(domain)
  }

  /** The nearest header line above line `i` of the stripped lines `raw`, if any. */
  function HeaderBefore(raw: seq<string>, i: nat): (h: Option<string>)
    requires i <= |raw|
    ensures h.Some? ==> IsHeader(h.value)
  {
    if i == 0 then None
    else if IsHeader(raw[i - 1]) then Some(raw[i - 1])
    else HeaderBefore(raw, i - 1)
  }

  /** Line `i` lies in a section named after `domain`. */
  predicate InTargetSection(raw: seq<string>, i: nat, domain: string)
    requires i <= |raw|
  {
    match HeaderBefore(raw, i)
    case None => false
    case Some(h) => NameMatches(h, domain)
  }

  /** A blank line or a comment (`#` or `;`). */
  predicate IsBlankOrComment(r: string) {
    r == [] || StartsWith(r, "#") || StartsWith(r, ";")
  }

  /** Line `i` is collected: not a header, inside a matching section, not blank, not a comment. */
  predicate IsEntry(raw: seq<string>, i: nat, domain: string)
    requires i < |raw|
  {
    !IsHeader(raw[i]) && InTargetSection(raw, i, domain) && !IsBlankOrComment(raw[i])
  }

  /** Which stripped lines are entries: flag `i` is `IsEntry(raw, i, domain)`. */
  function EntryFlags(raw: seq<string>, domain: string): seq<bool>
  {
    seq(|raw|, i requires 0 <= i < |raw| => IsEntry(raw, i, domain))
  }

  /** The entries of the sections named after `domain` in the stripped lines `raw`:
      every line `i` with `IsEntry(raw, i, domain)`, as it stands. */
  function EntriesOf(raw: seq<string>, domain: string): (r: set<string>)
    ensures forall x :: x in r <==> exists i :: 0 <= i < |raw| && IsEntry(raw, i, domain) && raw[i] == x
    ensures forall x :: x in r ==> x != [] && !IsHeader(x) && !StartsWith(x, "#") && !StartsWith(x, ";")
  {
    var flags := EntryFlags(raw, domain);
    FlaggedMembers(raw, flags, |raw|);
    Flagged(raw, flags, |raw|)
  }

  /** The entries among the first `k` stripped lines, as the reader has them after line `k`. */
  function EntriesUpTo(raw: seq<string>, k: nat, domain: string): set<string>
    requires k <= |raw|
  {
    Flagged(raw, EntryFlags(raw, domain), k)
  }

  /** The lines among the first `k` of `xs` whose flag is set. */
  function Flagged(xs: seq<string>, flags: seq<bool>, k: nat): set<string>
    requires k <= |xs| == |flags|
  {
    if k == 0 then {}
    else if flags[k - 1] then Flagged(xs, flags, k - 1) + {xs[k - 1]}
    else Flagged(xs, flags, k - 1)
  }

  lemma {:induction false} FlaggedMembers(xs: seq<string>, flags: seq<bool>, k: nat)
    requires k <= |xs| == |flags|
    ensures forall x :: x in Flagged(xs, flags, k) <==> exists i :: 0 <= i < k && flags[i] && xs[i] == x
  {
    if k > 0 {
      FlaggedMembers(xs, flags, k - 1);
      forall x | x in Flagged(xs, flags, k) ensures exists i :: 0 <= i < k && flags[i] && xs[i] == x {
        if x !in Flagged(xs, flags, k - 1) {
          assert flags[k - 1] && xs[k - 1] == x;
        }
      }
    }
  }

  /** The entries of the file text `content` for `domain`. */
  function ValidatedEntries(content: string, domain: string): set<string>
  {
    EntriesOf(StripAll(Lines(content)), domain)
  }

  /** `load_validated_subdomains(ini_file, domain)`: `iniFile` is the file's text, None
      when it is not a file; the `in_target_section` flag follows the headers. */
  method LoadValidatedSubdomains(iniFile: Option<string>, domain: string) returns (validated: set<string>)
    ensures iniFile.None? ==> validated == {}
    ensures iniFile.Some? ==> validated == ValidatedEntries(iniFile.value, domain)
  {
    if iniFile.None? {
      return {};
    }
    var lines := Lines(iniFile.value);
    ghost var raw := StripAll(lines);
    validated := {};
    var inTargetSection := false;
    var k := 0;
    while k < |lines|
      invariant 0 <= k <= |lines| == |raw|
      invariant inTargetSection == InTargetSection(raw, k, domain)
      invariant validated == EntriesUpTo(raw, k, domain)
    {
      var rawLine := Strip(lines[k]);
      assert rawLine == raw[k];
      InTargetStep(raw, k, domain);
      EntriesStep(raw, k, domain);
      HeaderTest(rawLine);
      if StartsWith(rawLine, "[") && EndsWith(rawLine, "]") {
        var sectionName := SectionName(rawLine);
        if Lower(sectionName) == Lower(domain) {
          inTargetSection := true;
        } else {
          inTargetSection := false;
        }
        k := k + 1;
        continue;
      }
      assert InTargetSection(raw, k + 1, domain) == inTargetSection;
      if inTargetSection {
        if rawLine == [] || StartsWith(rawLine, "#") || StartsWith(rawLine, ";") {
          assert EntriesUpTo(raw, k + 1, domain) == validated;
          k := k + 1;
          continue;
        }
        assert IsEntry(raw, k, domain);
        validated := validated + {rawLine};
      }
      assert EntriesUpTo(raw, k + 1, domain) == validated;
      k := k + 1;
    }
    assert validated == EntriesOf(raw, domain);
  }

  /** One more line read: the entries grow by that line exactly when it is an entry. */
  lemma EntriesStep(raw: seq<string>, k: nat, domain: string)
    requires k < |raw|
    ensures IsEntry(raw, k, domain) ==> EntriesUpTo(raw, k + 1, domain) == EntriesUpTo(raw, k, domain) + {raw[k]}
    ensures !IsEntry(raw, k, domain) ==> EntriesUpTo(raw, k + 1, domain) == EntriesUpTo(raw, k, domain)
  {
  }

  /** How `in_target_section` changes from one line to the next. */
  lemma InTargetStep(raw: seq<string>, k: nat, domain: string)
    requires k < |raw|
    ensures IsHeader(raw[k]) ==> InTargetSection(raw, k + 1, domain) == NameMatches(raw[k], domain)
    ensures !IsHeader(raw[k]) ==> InTargetSection(raw, k + 1, domain) == InTargetSection(raw, k, domain)
  {
  }

  // Properties of the reader --------------------------------------------------

  /** Lines above the first header, whatever they hold, are never collected. */
  lemma NoHeaderNoSection(raw: seq<string>, j: nat, domain: string)
    requires j <= |raw|
    requires forall i :: 0 <= i < j ==> !IsHeader(raw[i])
    ensures forall i :: 0 <= i < j ==> !IsEntry(raw, i, domain)
  {
    forall i | 0 <= i < j ensures !IsEntry(raw, i, domain) {
      NoHeaderAbove(raw, i);
      assert !InTargetSection(raw, i, domain);
    }
  }

  /** The header `HeaderBefore` returns is the nearest one: it stands at some line
      `j < i` with no header between it and line `i`; and there is none only when no
      line above `i` is a header. */
  lemma {:induction false} HeaderBeforeIsNearest(raw: seq<string>, i: nat)
    requires i <= |raw|
    ensures HeaderBefore(raw, i).Some? ==>
      exists j :: 0 <= j < i && raw[j] == HeaderBefore(raw, i).value
        && forall k :: j < k < i ==> !IsHeader(raw[k])
    ensures HeaderBefore(raw, i).None? ==> forall k :: 0 <= k < i ==> !IsHeader(raw[k])
  {
    if i > 0 && !IsHeader(raw[i - 1]) {
      HeaderBeforeIsNearest(raw, i - 1);
      if HeaderBefore(raw, i).Some? {
        var j :| 0 <= j < i - 1 && raw[j] == HeaderBefore(raw, i - 1).value
          && forall k :: j < k < i - 1 ==> !IsHeader(raw[k]);
        assert forall k :: j < k < i ==> !IsHeader(raw[k]);
      }
    } else if i > 0 {
      assert raw[i - 1] == HeaderBefore(raw, i).value;
    }
  }

  /** Above the first header there is no header to belong to. */
  lemma {:induction false} NoHeaderAbove(raw: seq<string>, j: nat)
    requires j <= |raw|
    requires forall i :: 0 <= i < j ==> !IsHeader(raw[i])
    ensures HeaderBefore(raw, j) == None
  {
    if j > 0 {
      NoHeaderAbove(raw, j - 1);
    }
  }

  /** The domain is matched whatever the ASCII case of either side. */
  lemma CaseInsensitiveDomain(raw: seq<string>, d1: string, d2: string)
    requires Lower(d1) == Lower(d2)
    ensures EntriesOf(raw, d1) == EntriesOf(raw, d2)
  {
    assert forall i :: 0 <= i < |raw| ==> (InTargetSection(raw, i, d1) <==> InTargetSection(raw, i, d2));
    assert forall i :: 0 <= i < |raw| ==> (IsEntry(raw, i, d1) <==> IsEntry(raw, i, d2));
  }

  /** A header fixes the section of every line below it up to the next header: the
      reader keeps collecting under a header that names the domain and ignores
      everything under one that does not, until a header naming the domain comes back.
      So the entries of several sections named alike are united. */
  lemma {:induction false} SectionExtent(raw: seq<string>, h: nat, i: nat)
    requires h < i <= |raw| && IsHeader(raw[h])
    requires forall j :: h < j < i ==> !IsHeader(raw[j])
    ensures HeaderBefore(raw, i) == Some(raw[h])
    decreases i
  {
    if i - 1 > h {
      SectionExtent(raw, h, i - 1);
    }
  }

  /** Under a header naming the domain, every stripped line that is not blank, not a
      comment and not a header is collected as it stands (`a.x.com = 2023-01-01` whole). */
  lemma CollectedVerbatim(raw: seq<string>, h: nat, i: nat, domain: string)
    requires h < i < |raw| && IsHeader(raw[h]) && NameMatches(raw[h], domain)
    requires forall j :: h < j <= i ==> !IsHeader(raw[j])
    requires !IsBlankOrComment(raw[i])
    ensures raw[i] in EntriesOf(raw, domain)
  {
    SectionExtent(raw, h, i);
    assert IsEntry(raw, i, domain);
  }

  /** Under a header that does not name the domain, nothing is collected. */
  lemma OtherSectionIgnored(raw: seq<string>, h: nat, i: nat, domain: string)
    requires h < i < |raw| && IsHeader(raw[h]) && !NameMatches(raw[h], domain)
    requires forall j :: h < j <= i ==> !IsHeader(raw[j])
    ensures !IsEntry(raw, i, domain)
  {
    SectionExtent(raw, h, i);
  }

  /** `[X.Com]` opens the section of `x.com`. */
  lemma MixedCaseHeaderMatches()
    ensures IsHeader("[X.Com]") && NameMatches("[X.Com]", "x.com")
  {
    var r := "[X.Com]";
    var name := "X.Com";
    assert r[1..|r| - 1] == name;
    assert name[0] == 'X' && name[4] == 'm' && !IsSpace('X') && !IsSpace('m');
    assert IsStripped(name);
    var lo := Lower("X.Com");
    assert lo[0] == 'x' && lo[1] == '.' && lo[2] == 'c' && lo[3] == 'o' && lo[4] == 'm';
    assert lo == "x.com";
    var ld := Lower("x.com");
    assert ld[0] == 'x' && ld[1] == '.' && ld[2] == 'c' && ld[3] == 'o' && ld[4] == 'm';
    assert ld == "x.com";
  }

  // The console alert -----------------------------------------------------------

  /** What `alert_new_subdomains` writes: one log line, and the lines echoed to the console. */
  datatype AlertOutput = AlertOutput(logLine: string, echoed: seq<string>)

  /** `"  " + sub` for every subdomain, in order. */
  function Indented(subs: seq<string>): seq<string>
  {
    seq(|subs|, k requires 0 <= k < |subs| => "  " + subs[k])
  }

  /** `alert_new_subdomains(domain, discovered_subs, ini_file)`: it echoes one line per
      new subdomain (a discovered one the file does not list), `"  " + s` for each new s,
      in increasing order, and logs `No new subdomains for [domain]` exactly when there
      is none. */
  function AlertNewSubdomains(domain: string, discovered: set<string>, iniFile: Option<string>): (out: AlertOutput)
    ensures |out.echoed| == |NewOf(domain, discovered, iniFile)|
    ensures forall s :: "  " + s in out.echoed <==> s in NewOf(domain, discovered, iniFile)
    ensures forall i, j :: 0 <= i < j < |out.echoed| ==> Below(out.echoed[i], out.echoed[j])
    ensures out.logLine == "No new subdomains for [" + domain + "]" <==> NewOf(domain, discovered, iniFile) == {}
  {
    var newSubs := NewOf(domain, discovered, iniFile);
    if newSubs != {} then
      IndentedMembers(SortedOf(newSubs));
      IndentedOrder(SortedOf(newSubs));
      AlertLineDiffers(domain, |newSubs|);
      AlertOutput("[ALERT] Found " + NatToString(|newSubs|) + " new subdomain(s) for [" + domain + "]",
                  Indented(SortedOf(newSubs)))
    else
      AlertOutput("No new subdomains for [" + domain + "]", [])
  }

  /** The subdomains the alert reports: the discovered ones the file does not list. */
  function NewOf(domain: string, discovered: set<string>, iniFile: Option<string>): set<string>
  {
    discovered - (if iniFile.None? then {} else ValidatedEntries(iniFile.value, domain))
  }

  /** Indenting a listing keeps one line per entry, and holds `"  " + s` exactly for
      the entries s. */
  lemma IndentedMembers(e: seq<string>)
    ensures |Indented(e)| == |e|
    ensures forall s :: "  " + s in Indented(e) <==> s in e
  {
    var r := Indented(e);
    forall s ensures "  " + s in r <==> s in e {
      if "  " + s in r {
        var k :| 0 <= k < |r| && r[k] == "  " + s;
        assert ("  " + s)[2..] == s && ("  " + e[k])[2..] == e[k];
      }
      if s in e {
        var k :| 0 <= k < |e| && e[k] == s;
        assert r[k] == "  " + s;
      }
    }
  }

  /** Indenting an increasing listing keeps it increasing. */
  lemma IndentedOrder(e: seq<string>)
    requires StrictlyIncreasing(e)
    ensures forall i, j :: 0 <= i < j < |Indented(e)| ==> Below(Indented(e)[i], Indented(e)[j])
  {
    var r := Indented(e);
    forall i, j | 0 <= i < j < |r| ensures Below(r[i], r[j]) {
      PrefixKeepsOrder("  ", e[i], e[j]);
    }
  }

  /** The alert's log line is never the quiet one: they differ in their first character. */
  lemma AlertLineDiffers(domain: string, count: nat)
    ensures "[ALERT] Found " + NatToString(count) + " new subdomain(s) for [" + domain + "]"
      != "No new subdomains for [" + domain + "]"
  {
    var loud := "[ALERT] Found " + NatToString(count) + " new subdomain(s) for [" + domain + "]";
    var quiet := "No new subdomains for [" + domain + "]";
    assert loud[0] == '[' && quiet[0] == 'N';
  }

  /** Putting the same prefix in front of two strings keeps their order. */
  lemma {:induction false} PrefixKeepsOrder(p: string, a: string, b: string)
    requires Below(a, b)
    ensures Below(p + a, p + b)
    decreases |p|
  {
    if p != [] {
      assert (p + a)[0] == p[0] && (p + b)[0] == p[0];
      assert (p + a)[1..] == p[1..] + a && (p + b)[1..] == p[1..] + b;
      PrefixKeepsOrder(p[1..], a, b);
    } else {
      assert p + a == a && p + b == b;
    }
  }

  /** With the file missing nothing is validated, so every discovered subdomain is new. */
  lemma MissingFileAllNew(domain: string, discovered: set<string>)
    ensures |AlertNewSubdomains(domain, discovered, None).echoed| == |discovered|
    ensures forall s :: "  " + s in AlertNewSubdomains(domain, discovered, None).echoed <==> s in discovered
  {
    assert NewOf(domain, discovered, None) == discovered;
  }

}
