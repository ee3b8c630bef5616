/**
 * asm.py: the part of `execute_scan` that turns the merged tool output and the
 * validated-subdomain baseline into the alert message (the found set, the new set,
 * the expired set and the message text), the configparser-backed baseline loader,
 * and the reading of a domain-list file.
 */
module Asm {
  import opened Optional
  import opened PyStr
  import opened StrOrder
  import opened Dates
  import opened Subdomain

  /** The window `execute_scan` passes to `find_expired_subdomains`: a validation at
      least 365 days old has expired. */
  const DaysValid := 365

  // The baseline (asm.py:48-67) ---------------------------------------------------

  /** A parsed INI file: section name → (option name → value). Option names keep their
      case (`optionxform = str`). */
  type Ini = map<string, map<string, string>>

  /** configparser's default section, which `has_section` never reports. */
  const DefaultSection := "DEFAULT"

  /** `parser.has_section(name)`: an exact, case-sensitive match. */
  predicate HasSection(ini: Ini, name: string) {
    name in ini && name != DefaultSection
  }

  /** `load_validated_subdomains(validated_ini, domain)`: `iniFile` is the parsed file,
      None when it does not exist. The result maps each option of the section named
      exactly `domain` to its value, stripped; it is empty when the file or the section
      is missing. */
  function LoadBaseline(iniFile: Option<Ini>, domain: string): (r: map<string, string>)
    ensures iniFile.None? ==> r == map[]
    ensures iniFile.Some? && !HasSection(iniFile.value, domain) ==> r == map[]
    ensures iniFile.Some? && HasSection(iniFile.value, domain) ==>
      r.Keys == iniFile.value[domain].Keys
      && forall k :: k in r ==> r[k] == Strip(iniFile.value[domain][k])
    ensures forall k :: k in r ==> IsStripped(r[k])
  {
    if iniFile.None? || !HasSection(iniFile.value, domain) then map[]
    else
      var section := iniFile.value[domain];
      map k | k in section :: Strip(section[k])
  }

  /** Unlike the reader of function/alert.py, this lookup is case-sensitive: a section
      `[X.Com]` gives nothing for the domain `x.com`. */
  lemma BaselineCaseSensitive(section: map<string, string>)
    requires section != map[]
    ensures LoadBaseline(Some(map["X.Com" := section]), "x.com") == map[]
    ensures LoadBaseline(Some(map["X.Com" := section]), "X.Com") != map[]
  {
    assert "x.com" != "X.Com" by { assert "x.com"[0] != "X.Com"[0]; }
    var k :| k in section;
    assert k in LoadBaseline(Some(map["X.Com" := section]), "X.Com");
  }

  // Expiry (asm.py:69-85) ---------------------------------------------------------

  /** `strptime(date_str, "%Y-%m-%d")` succeeds and `(today - validated_date).days` is at
      least `daysValid`. */
  predicate IsExpired(dateStr: string, today: Date, daysValid: int)
    requires ValidDate(today)
    ensures IsExpired(dateStr, today, daysValid) ==> ParseDate(dateStr).Some?
    ensures ParseDate(dateStr).Some? && Ordinal(today) < Ordinal(ParseDate(dateStr).value) && daysValid >= 0 ==>
      !IsExpired(dateStr, today, daysValid)
  {
    match ParseDate(dateStr)
    case None => false
    case Some(d) => Ordinal(today) - Ordinal(d) >= daysValid
  }

  /** The subdomains among `keys` whose stored date has expired. */
  function ExpiredAmong(oldSubs: map<string, string>, keys: set<string>, today: Date, daysValid: int): set<string>
    requires ValidDate(today)
  {
    set s | s in keys && s in oldSubs && IsExpired(oldSubs[s], today, daysValid)
  }

  /** The subdomains among `keys` whose stored date `strptime` rejects. */
  function UnparsableAmong(oldSubs: map<string, string>, keys: set<string>): set<string>
  {
    set s | s in keys && s in oldSubs && ParseDate(oldSubs[s]).None?
  }

  /** `find_expired_subdomains(old_sub_dict, days_valid)` with `date.today()` given as
      `today`: the expired subdomains, and the subdomains whose date is malformed (each of
      which is logged as a warning and skipped). The dictionary is walked in an arbitrary
      order. */
  method FindExpiredSubdomains(oldSubs: map<string, string>, today: Date, daysValid: int)
    returns (expired: set<string>, invalid: set<string>)
    requires ValidDate(today)
    ensures expired == ExpiredAmong(oldSubs, oldSubs.Keys, today, daysValid)
    ensures invalid == UnparsableAmong(oldSubs, oldSubs.Keys)
  {
    expired := {};
    invalid := {};
    var remaining := oldSubs.Keys;
    while remaining != {}
      invariant remaining <= oldSubs.Keys
      invariant expired == ExpiredAmong(oldSubs, oldSubs.Keys - remaining, today, daysValid)
      invariant invalid == UnparsableAmong(oldSubs, oldSubs.Keys - remaining)
      decreases |remaining|
    {
      var sub :| sub in remaining;
      var done := oldSubs.Keys - remaining;
      ExpiryStep(oldSubs, done, sub, today, daysValid);
      assert oldSubs.Keys - (remaining - {sub}) == done + {sub};
      var dateStr := oldSubs[sub];
      match ParseDate(dateStr) {
        case Some(validatedDate) =>
          var delta := Ordinal(today) - Ordinal(validatedDate);
          if delta >= daysValid {
            expired := expired + {sub};
          }
        case None =>
          invalid := invalid + {sub};
      }
      remaining := remaining - {sub};
    }
  }

  /** One more dictionary item looked at. */
  lemma ExpiryStep(oldSubs: map<string, string>, done: set<string>, sub: string, today: Date, daysValid: int)
    requires ValidDate(today) && sub in oldSubs
    ensures IsExpired(oldSubs[sub], today, daysValid) ==>
      ExpiredAmong(oldSubs, done + {sub}, today, daysValid) == ExpiredAmong(oldSubs, done, today, daysValid) + {sub}
    ensures !IsExpired(oldSubs[sub], today, daysValid) ==>
      ExpiredAmong(oldSubs, done + {sub}, today, daysValid) == ExpiredAmong(oldSubs, done, today, daysValid)
    ensures ParseDate(oldSubs[sub]).None? ==>
      UnparsableAmong(oldSubs, done + {sub}) == UnparsableAmong(oldSubs, done) + {sub}
    ensures ParseDate(oldSubs[sub]).Some? ==>
      UnparsableAmong(oldSubs, done + {sub}) == UnparsableAmong(oldSubs, done)
  {
  }

  /** A subdomain is expired exactly when its stored date parses and lies at least
      `daysValid` days before `today`. */
  lemma ExpiredIff(oldSubs: map<string, string>, today: Date, daysValid: int, s: string)
    requires ValidDate(today)
    ensures s in ExpiredAmong(oldSubs, oldSubs.Keys, today, daysValid) <==>
      s in oldSubs && ParseDate(oldSubs[s]).Some?
      && Ordinal(today) - Ordinal(ParseDate(oldSubs[s]).value) >= daysValid
  {
  }

  /** Every expired subdomain is a key of the baseline, and a malformed date is never
      expired. */
  lemma ExpiredWithinBaseline(oldSubs: map<string, string>, today: Date, daysValid: int)
    requires ValidDate(today)
    ensures ExpiredAmong(oldSubs, oldSubs.Keys, today, daysValid) <= oldSubs.Keys
    ensures ExpiredAmong(oldSubs, oldSubs.Keys, today, daysValid) !! UnparsableAmong(oldSubs, oldSubs.Keys)
  {
  }

  /** A shorter window expires more: expiry is anti-monotone in `daysValid`. */
  lemma ShorterWindowExpiresMore(oldSubs: map<string, string>, today: Date, shorter: int, longer: int)
    requires ValidDate(today) && shorter <= longer
    ensures ExpiredAmong(oldSubs, oldSubs.Keys, today, longer) <= ExpiredAmong(oldSubs, oldSubs.Keys, today, shorter)
  {
  }

  /** The boundary: a date exactly `daysValid` days before `today` has expired, and the
      next day has not. */
  lemma ExpiryBoundary(d: Date, today: Date, daysValid: int)
    requires ValidDate(d) && ValidDate(today) && d != Date(9999, 12, 31)
    requires Ordinal(today) - Ordinal(d) == daysValid
    ensures IsExpired(FormatDate(d), today, daysValid)
    ensures !IsExpired(FormatDate(NextDay(d)), today, daysValid)
  {
    FormatThenParse(d);
    FormatThenParse(NextDay(d));
    OrdinalNextDay(d);
  }

  /** With the year-long window `execute_scan` uses, a subdomain validated on 2023-01-01
      has expired by 2024-06-01, and one validated on 2024-01-01 has not. */
  lemma YearWindowExample()
    ensures IsExpired("2023-01-01", Date(2024, 6, 1), DaysValid)
    ensures !IsExpired("2024-01-01", Date(2024, 6, 1), DaysValid)
  {
    FormatThenParse(Date(2023, 1, 1));
    FormatThenParse(Date(2024, 1, 1));
    assert FormatDate(Date(2023, 1, 1)) == "2023-01-01";
    assert FormatDate(Date(2024, 1, 1)) == "2024-01-01";
  }

  // The found set (asm.py:130-135) --------------------------------------------------

  /** The non-blank stripped lines of the merged file. */
  function FoundSet(merged: string): (r: set<string>)
    ensures "" !in r
    ensures forall x :: x in r ==> IsStripped(x)
  {
    NonBlankStripped(Lines(merged))
  }

  /** The loop that reads the merged file into `found_subdomains`. */
  method ReadFoundSubdomains(merged: string) returns (found: set<string>)
    ensures found == FoundSet(merged)
  {
    var lines := Lines(merged);
    found := {};
    var k := 0;
    while k < |lines|
      invariant 0 <= k <= |lines|
      invariant found == NonBlankStripped(lines[..k])
    {
      var sub := Strip(lines[k]);
      FoundStep(lines, k);
      if sub != [] {
        found := found + {sub};
      }
      k := k + 1;
    }
    assert lines[..|lines|] == lines;
  }

  /** One more line read. */
  lemma FoundStep(lines: seq<string>, k: nat)
    requires k < |lines|
    ensures Strip(lines[k]) != [] ==>
      NonBlankStripped(lines[..k + 1]) == NonBlankStripped(lines[..k]) + {Strip(lines[k])}
    ensures Strip(lines[k]) == [] ==> NonBlankStripped(lines[..k + 1]) == NonBlankStripped(lines[..k])
  {
    assert lines[..k + 1] == lines[..k] + [lines[k]];
    NonBlankStrippedAppend(lines[..k], [lines[k]]);
    NonBlankStrippedSingle(lines[k]);
  }

  /** Reading back the file `merge_files` wrote gives every stripped line of the tool
      files except the blank one. */
  lemma FoundOfMerged(files: seq<ToolFile>)
    ensures FoundSet(MergedContent(files)) == MergedSet(files) - {""}
  {
    var s := MergedSet(files);
    var e := SortedOf(s);
    MergedEntriesAreLines(files);
    NonBlankOfJoin(e);
    forall x ensures x in NonBlankStripped(e) <==> x in s - {""} {
      if x in s - {""} {
        assert x in e && Strip(x) == x;
      }
    }
  }

  // The new set (asm.py:141) ----------------------------------------------------

  /** `found_subdomains - set(old_subs_dict.keys())`. */
  function NewSubdomains(found: set<string>, oldSubs: map<string, string>): (r: set<string>)
    ensures r <= found
    ensures r !! oldSubs.Keys
    ensures forall x :: x in found && x !in oldSubs ==> x in r
  {
    found - oldSubs.Keys
  }

  /** From the tool files to the new set: a subdomain is reported as new exactly when some
      existing tool file lists it, it is not blank, and the baseline does not hold it; with
      no baseline file every non-blank listed subdomain is new. */
  lemma NewFromTools(files: seq<ToolFile>, iniFile: Option<Ini>, domain: string)
    ensures var baseline := LoadBaseline(iniFile, domain);
      forall x :: x in NewSubdomains(FoundSet(MergedContent(files)), baseline) <==>
        Contributes(files, x) && x != "" && x !in baseline
    ensures iniFile.None? ==>
      NewSubdomains(FoundSet(MergedContent(files)), LoadBaseline(iniFile, domain)) == MergedSet(files) - {""}
  {
    var baseline := LoadBaseline(iniFile, domain);
    var found := FoundSet(MergedContent(files));
    FoundOfMerged(files);
    assert found == MergedSet(files) - {""};
    forall x
      ensures x in NewSubdomains(found, baseline) <==> Contributes(files, x) && x != "" && x !in baseline
    {
      assert x in NewSubdomains(found, baseline) <==> x in found && x !in baseline;
      assert x in found <==> x in MergedSet(files) && x != "";
    }
    if iniFile.None? {
      assert baseline == map[];
      assert NewSubdomains(found, baseline) == found;
    }
  }

  // The message (asm.py:144-156) ----------------------------------------------------

  /** `xs` lists every element of `s` once, in some order: how a Python set is iterated. */
  ghost predicate IsEnumeration(xs: seq<string>, s: set<string>) {
    |xs| == |s| && forall x :: x in xs <==> x in s
  }

  /** Iterating over a set: its elements one by one, in an order the set chooses. */
  method Enumerate(s: set<string>) returns (xs: seq<string>)
    ensures IsEnumeration(xs, s)
  {
    xs := [];
    var remaining := s;
    while remaining != {}
      invariant remaining <= s
      invariant |xs| + |remaining| == |s|
      invariant forall x :: x in xs <==> x in s && x !in remaining
      decreases |remaining|
    {
      var x :| x in remaining;
      xs := xs + [x];
      remaining := remaining - {x};
    }
  }

  /** `f"[+] Found {len(new_subs)} new subdomain(s) for [{domain}]:\n"` */
  function NewHeader(domain: string, count: nat): string
  {
    "[+] Found " + NatToString(count) + " new subdomain(s) for [" + domain + "]:\n"
  }

  /** `f"No new subdomains for [{domain}]"` */
  function NoNewLine(domain: string): string
  {
    "No new subdomains for [" + domain + "]"
  }

  /** `f"\n\n[!] Found {len(exprired_subs)} expired subdomain(s) for [{domain}]:\n"` */
  function ExpiredHeader(domain: string, count: nat): string
  {
    "\n\n[!] Found " + NatToString(count) + " expired subdomain(s) for [" + domain + "]:\n"
  }

  /** `f"\nNo expired subdomains for [{domain}]"` */
  function NoExpiredLine(domain: string): string
  {
    "\nNo expired subdomains for [" + domain + "]"
  }

  /** The first part: the count and the new subdomains, or that there are none. */
  function NewBlock(domain: string, newOrder: seq<string>): string
  {
    if newOrder != [] then NewHeader(domain, |newOrder|) + Join(newOrder, "\n") else NoNewLine(domain)
  }

  /** The second part: the count and the expired subdomains, or that there are none. */
  function ExpiredBlock(domain: string, expOrder: seq<string>): string
  {
    if expOrder != [] then ExpiredHeader(domain, |expOrder|) + Join(expOrder, "\n") else NoExpiredLine(domain)
  }

  /** `full_message` for the new and expired subdomains listed in the given orders. */
  function MessageText(domain: string, newOrder: seq<string>, expOrder: seq<string>): string
  {
    NewBlock(domain, newOrder) + ExpiredBlock(domain, expOrder)
  }

  /** The `full_message +=` block: the sets are listed in the order their iteration yields,
      which is returned alongside the message. */
  method BuildMessage(domain: string, newSubs: set<string>, expired: set<string>)
    returns (fullMessage: string, newOrder: seq<string>, expOrder: seq<string>)
    ensures IsEnumeration(newOrder, newSubs) && IsEnumeration(expOrder, expired)
    ensures fullMessage == MessageText(domain, newOrder, expOrder)
  {
    fullMessage := "";
    fullMessage, newOrder := AppendNewPart(fullMessage, domain, newSubs);
    AppendEmpty(NewBlock(domain, newOrder));
    fullMessage, expOrder := AppendExpiredPart(fullMessage, domain, expired);
  }

  /** `if new_subs: ... else: ...`, appending to `msg`. */
  method AppendNewPart(msg: string, domain: string, newSubs: set<string>)
    returns (fullMessage: string, newOrder: seq<string>)
    ensures IsEnumeration(newOrder, newSubs)
    ensures fullMessage == msg + NewBlock(domain, newOrder)
  {
    newOrder := Enumerate(newSubs);
    EmptyEnumeration(newOrder, newSubs);
    fullMessage := msg;
    if newSubs != {} {
      fullMessage := fullMessage + NewHeader(domain, |newSubs|);
      fullMessage := fullMessage + Join(newOrder, "\n");
      AppendAssoc(msg, NewHeader(domain, |newSubs|), Join(newOrder, "\n"));
    } else {
      fullMessage := fullMessage + NoNewLine(domain);
    }
  }

  /** `if exprired_subs: ... else: ...`, appending to `msg`. */
  method AppendExpiredPart(msg: string, domain: string, expired: set<string>)
    returns (fullMessage: string, expOrder: seq<string>)
    ensures IsEnumeration(expOrder, expired)
    ensures fullMessage == msg + ExpiredBlock(domain, expOrder)
  {
    expOrder := Enumerate(expired);
    EmptyEnumeration(expOrder, expired);
    fullMessage := msg;
    if expired != {} {
      fullMessage := fullMessage + ExpiredHeader(domain, |expired|);
      fullMessage := fullMessage + Join(expOrder, "\n");
      AppendAssoc(msg, ExpiredHeader(domain, |expired|), Join(expOrder, "\n"));
    } else {
      fullMessage := fullMessage + NoExpiredLine(domain);
    }
  }

  /** An enumeration is empty exactly when its set is. */
  lemma EmptyEnumeration(xs: seq<string>, s: set<string>)
    requires IsEnumeration(xs, s)
    ensures xs == [] <==> s == {}
  {
    if xs != [] {
      assert xs[0] in s;
    }
  }

  /** With something new, the message opens with the header counting the new subdomains
      (`|newSubs|`, written in decimal). */
  lemma MessageOpensWithCount(domain: string, newSubs: set<string>, newOrder: seq<string>, expOrder: seq<string>)
    requires IsEnumeration(newOrder, newSubs) && newSubs != {}
    ensures StartsWith(MessageText(domain, newOrder, expOrder), NewHeader(domain, |newSubs|))
  {
    EmptyEnumeration(newOrder, newSubs);
    var h := NewHeader(domain, |newSubs|);
    var j, e := Join(newOrder, "\n"), ExpiredBlock(domain, expOrder);
    assert NewBlock(domain, newOrder) == h + j;
    AppendAssoc(h, j, e);
    StartsWithConcat(h, j + e);
  }

  /** With nothing new, the message opens with the line `No new subdomains for [domain]`,
      and the expired part follows on the next line. */
  lemma MessageOpensQuiet(domain: string, newSubs: set<string>, newOrder: seq<string>, expOrder: seq<string>)
    requires IsEnumeration(newOrder, newSubs) && newSubs == {}
    ensures StartsWith(MessageText(domain, newOrder, expOrder), NoNewLine(domain) + "\n")
  {
    EmptyEnumeration(newOrder, newSubs);
    var e := ExpiredBlock(domain, expOrder);
    ExpiredBlockNewline(domain, expOrder);
    FirstThenRest(e);
    assert MessageText(domain, newOrder, expOrder) == NoNewLine(domain) + e;
    AppendAssoc(NoNewLine(domain), "\n", e[1..]);
    StartsWithConcat(NoNewLine(domain) + "\n", e[1..]);
  }

  /** The expired part always starts on a new line. */
  lemma ExpiredBlockNewline(domain: string, expOrder: seq<string>)
    ensures ExpiredBlock(domain, expOrder) != [] && ExpiredBlock(domain, expOrder)[0] == '\n'
  {
    if expOrder != [] {
      var h := ExpiredHeader(domain, |expOrder|);
      var j := Join(expOrder, "\n");
      assert h[0] == '\n';
      FirstOfConcat(h, j);
    } else {
      assert NoExpiredLine(domain)[0] == '\n';
    }
  }

  /** The message is never blank, so the alert channels that skip a whitespace-only
      message always send it. */
  lemma MessageNeverBlank(domain: string, newOrder: seq<string>, expOrder: seq<string>)
    ensures Strip(MessageText(domain, newOrder, expOrder)) != []
  {
    var m := MessageText(domain, newOrder, expOrder);
    var b := NewBlock(domain, newOrder);
    assert b[0] == '[' || b[0] == 'N';
    assert m[0] == b[0];
    StripKeepsVisibleStart(m);
  }

  /** The message lists the same subdomains whatever order the set yields: two
      enumerations of one set hold each subdomain the same number of times (once). */
  lemma EnumerationsAgree(xs: seq<string>, ys: seq<string>, s: set<string>)
    requires IsEnumeration(xs, s) && IsEnumeration(ys, s)
    ensures multiset(xs) == multiset(ys)
  {
    EnumerationCounts(xs, s);
    EnumerationCounts(ys, s);
  }

  /** An enumeration holds each element of its set exactly once. */
  lemma {:induction false} EnumerationCounts(xs: seq<string>, s: set<string>)
    requires IsEnumeration(xs, s)
    ensures multiset(xs) == multiset(s)
    decreases |xs|
  {
    if xs != [] {
      var x, rest := xs[0], xs[1..];
      assert xs == [x] + rest;
      assert x in s;
      ElementsAtMostLength(rest);
      var seen := set y | y in rest;
      assert s - {x} <= seen <= s;
      CoverCard(seen, s, x);
      assert x !in seen;
      assert forall y :: y in rest <==> y in s - {x};
      EnumerationCounts(rest, s - {x});
      assert s == (s - {x}) + {x};
    }
  }

  /** A subset of `s` that holds every element but `x` is all of `s` once it holds `x`. */
  lemma CoverCard(seen: set<string>, s: set<string>, x: string)
    requires s - {x} <= seen <= s
    ensures x in seen ==> |seen| == |s|
  {
    if x in seen {
      assert seen == s;
    }
  }

  /** A sequence holds no more distinct elements than its length. */
  lemma {:induction false} ElementsAtMostLength(xs: seq<string>)
    ensures |set y | y in xs| <= |xs|
    decreases |xs|
  {
    if xs != [] {
      ElementsAtMostLength(xs[1..]);
      assert (set y | y in xs) == {xs[0]} + set y | y in xs[1..];
    }
  }

  // The domain list (asm.py:201) ------------------------------------------------------

  /** `[line.strip() for line in f if line.strip()]`: the non-blank stripped lines, in order. */
  function DomainList(lines: seq<string>): (r: seq<string>)
    ensures |r| <= |lines|
    ensures forall k :: 0 <= k < |r| ==> r[k] != [] && IsStripped(r[k])
    decreases |lines|
  {
    if lines == [] then []
    else if Strip(lines[0]) != [] then [Strip(lines[0])] + DomainList(lines[1..])
    else DomainList(lines[1..])
  }

  /** The domains read from a file's text. */
  function DomainsOfFile(content: string): seq<string>
  {
    DomainList(Lines(content))
  }

  /** The domain list holds the same names as the found-set filter of the same text. */
  lemma {:induction false} DomainListMembers(lines: seq<string>)
    ensures forall x :: x in DomainList(lines) <==> x in NonBlankStripped(lines)
    decreases |lines|
  {
    if lines != [] {
      DomainListMembers(lines[1..]);
      assert lines == [lines[0]] + lines[1..];
      NonBlankStrippedAppend([lines[0]], lines[1..]);
      NonBlankStrippedSingle(lines[0]);
    }
  }

  /** Writing non-blank stripped names one per line and reading the file back gives the
      names again, in the same order. */
  lemma {:induction false} DomainListRoundTrip(names: seq<string>)
    requires forall k :: 0 <= k < |names| ==> names[k] != [] && IsStripped(names[k]) && '\n' !in names[k]
    ensures DomainsOfFile(Join(names, "\n")) == names
    decreases |names|
  {
    if names == [] {
      assert Lines([]) == [];
    } else if |names| == 1 {
      DomainListOne(names[0]);
      assert [names[0]] == names;
    } else {
      DomainListRoundTrip(names[1..]);
      DomainListFront(names[0], names[1..]);
      assert [names[0]] + names[1..] == names;
    }
  }

  /** One more name in front of a non-empty list of names. */
  lemma DomainListFront(x: string, rest: seq<string>)
    requires rest != [] && x != [] && IsStripped(x) && '\n' !in x
    requires DomainsOfFile(Join(rest, "\n")) == rest
    ensures DomainsOfFile(Join([x] + rest, "\n")) == [x] + rest
  {
    var jr := Join(rest, "\n");
    JoinCons(x, rest, "\n");
    LinesCons(x, jr);
    StripDropsTrailingSpace(x, '\n');
    DomainListKeeps(x + "\n", Lines(jr));
  }

  /** A single name written alone reads back as itself. */
  lemma DomainListOne(x: string)
    requires x != [] && IsStripped(x) && '\n' !in x
    ensures DomainsOfFile(Join([x], "\n")) == [x]
  {
    assert Join([x], "\n") == x;
    LinesSingle(x);
    assert Lines(x) == [x];
    assert DomainList([x]) == [x] + DomainList([]);
  }

  /** A line that is not blank once stripped is kept, stripped, in front of the rest. */
  lemma DomainListKeeps(l: string, ls: seq<string>)
    requires Strip(l) != []
    ensures DomainList([l] + ls) == [Strip(l)] + DomainList(ls)
  {
    assert ([l] + ls)[0] == l && ([l] + ls)[1..] == ls;
  }
}
