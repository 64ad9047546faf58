/** The canonical string of a request's headers, written into its fixed buffer. */
module Ja4h {
  import opened HeaderNames
  import opened Options

  const CANLEN: nat := 4096
  const END: nat := CANLEN - 1
  const LANG_MAX: nat := 32
  const HTTP_11: nat := 1001
  const HTTP_20: nat := 2000

  datatype Method = Get | Post | Put | Delete | Head | Options | Patch | OtherMethod

  /** The parts of a request the fingerprint reads; headers come in the server's list parts. */
  datatype Request = Request(meth: Method, version: nat, parts: seq<seq<Header>>, language: Option<string>)

  // ---- What the string says ----

  function MethodText(m: Method): (s: string)
    ensures |s| == 2
  {
    match m
    case Get => "ge" case Post => "po" case Put => "pu" case Delete => "de"
    case Head => "he" case Options => "op" case Patch => "pa" case OtherMethod => "xx"
  }

  function VersionText(version: nat): (s: string)
    ensures |s| == 2
  {
    if version >= HTTP_20 then "20" else if version >= HTTP_11 then "11" else "10"
  }

  function Flat(parts: seq<seq<Header>>): seq<Header> {
    if parts == [] then [] else Flat(parts[..|parts| - 1]) + parts[|parts| - 1]
  }

  /** The names that take part: the first of those not skipped. */
  function Kept(r: Request): seq<string> {
    First(Names(Flat(r.parts)), MAX_HDRS)
  }

  function Joined(names: seq<string>): string {
    if names == [] then []
    else
      var n := |names| - 1;
      Joined(names[..n]) + (if n > 0 then "," else "") + Lower(names[n])
  }

  predicate EndsTag(c: char) {
    c == ',' || c == ';' || c == ' '
  }

  /** The first language tag, cut to a bounded length. */
  function FirstTag(s: string): string {
    First(TagOf(s), LANG_MAX)
  }

  function TagOf(s: string): string {
    if s == [] || EndsTag(s[0]) then [] else [s[0]] + TagOf(s[1..])
  }

  function Flag(b: bool): char {
    if b then '1' else '0'
  }

  function TwoDigits(n: nat): (s: string)
    requires n < 100
    ensures |s| == 2
  {
    [('0' as int + n / 10) as char, ('0' as int + n % 10) as char]
  }

  function Prefix(r: Request, n: nat): (s: string)
    requires n < 100
    ensures |s| == 12
  {
    MethodText(r.meth) + "|" + VersionText(r.version) + "|"
    + [Flag(HasName(Flat(r.parts), "cookie")), Flag(HasName(Flat(r.parts), "referer"))] + "|" + TwoDigits(n) + "|"
  }

  function LanguageText(r: Request): string {
    if r.language.Some? then FirstTag(r.language.value) else []
  }

  function Canonical(r: Request, sorted: seq<string>): string
    requires |sorted| <= MAX_HDRS
  {
    Prefix(r, |sorted|) + Joined(sorted) + "|" + LanguageText(r)
  }

  /** A string that does not fit the buffer gives no fingerprint. */
  function Fit(s: string): Option<string> {
    if |s| < END then Some(s) else None
  }

  /** What a run of the code may produce, whichever correct sort it uses. */
  ghost predicate IsFingerprint(r: Request, c: Option<string>) {
    exists s :: |s| <= MAX_HDRS && IsSort(s, Kept(r)) && c == Fit(Canonical(r, s))
  }

  // ---- Order and case do not matter ----

  predicate NoNul(r: Request) {
    forall h :: h in Flat(r.parts) ==> NulFree(h.key)
  }

  /** The same request up to the order of its headers and the letter case of their names. */
  ghost predicate SameHeaders(q: Request, r: Request) {
    && q.meth == r.meth && q.version == r.version && q.language == r.language
    && multiset(Fold(Flat(q.parts))) == multiset(Fold(Flat(r.parts)))
  }

  lemma {:induction false} NamesAreKeys(hs: seq<Header>, n: string)
    requires n in Names(hs)
    ensures exists h :: h in hs && h.key == n
  {
    var k := |hs| - 1;
    if n in Names(hs[..k]) {
      NamesAreKeys(hs[..k], n);
      var h :| h in hs[..k] && h.key == n;
      assert h in hs;
    } else {
      assert hs[k] in hs && hs[k].key == n;
    }
  }

  lemma KeptIsNulFree(r: Request)
    requires NoNul(r)
    ensures forall n :: n in Kept(r) ==> NulFree(n)
  {
    hide NulFree;
    forall n | n in Kept(r) ensures NulFree(n) {
      assert n in Names(Flat(r.parts));
      NamesAreKeys(Flat(r.parts), n);
    }
  }

  lemma {:induction false} JoinedIgnoresCase(s: seq<string>, t: seq<string>)
    requires LowerAll(s) == LowerAll(t)
    ensures Joined(s) == Joined(t)
  {
    assert |s| == |LowerAll(s)| == |t|;
    if s != [] {
      var n := |s| - 1;
      assert LowerAll(s[..n]) == LowerAll(s)[..n] && LowerAll(t[..n]) == LowerAll(t)[..n];
      JoinedIgnoresCase(s[..n], t[..n]);
      assert LowerAll(s)[n] == Lower(s[n]) && LowerAll(t)[n] == Lower(t[n]);
    }
  }

  lemma SortsGiveOneText(q: Request, r: Request, s: seq<string>, t: seq<string>)
    requires NoNul(q) && NoNul(r) && IsSort(s, Kept(q)) && IsSort(t, Kept(r))
    requires multiset(LowerAll(Kept(q))) == multiset(LowerAll(Kept(r)))
    ensures |s| == |t| && Joined(s) == Joined(t)
  {
    hide NoNul, IsSort, Kept, NulFree, Joined;
    KeptIsNulFree(q);
    KeptIsNulFree(r);
    assert forall n :: n in Kept(q) + Kept(r) ==> n in Kept(q) || n in Kept(r);
    SortsAgree(s, Kept(q), t, Kept(r));
    assert |LowerAll(s)| == |s| && |LowerAll(t)| == |t|;
    JoinedIgnoresCase(s, t);
  }

  lemma KeptAll(r: Request)
    ensures |Names(Flat(r.parts))| <= MAX_HDRS ==> Kept(r) == Names(Flat(r.parts))
  {
  }

  lemma SameEnds(q: Request, r: Request, n: nat)
    requires SameHeaders(q, r) && n < 100
    requires forall x :: HasName(Flat(q.parts), x) <==> HasName(Flat(r.parts), x)
    ensures Prefix(q, n) == Prefix(r, n) && LanguageText(q) == LanguageText(r)
  {
    hide HasName, Flat, Fold, FirstTag;
  }

  /** Up to the limit, header order and letter case never reach the fingerprint. */
  lemma FingerprintIgnoresOrderAndCase(q: Request, r: Request)
    requires NoNul(q) && NoNul(r) && SameHeaders(q, r) && |Names(Flat(q.parts))| <= MAX_HDRS
    ensures forall c, d :: IsFingerprint(q, c) && IsFingerprint(r, d) ==> c == d
  {
    hide NoNul, IsSort, Joined, Names, Flat, Fold, HasName, Kept, Prefix, LanguageText, LowerAll;
    KeptAll(q);
    KeptAll(r);
    NamesFolded(Flat(q.parts), Flat(r.parts));
    forall c, d | IsFingerprint(q, c) && IsFingerprint(r, d) ensures c == d {
      var s :| |s| <= MAX_HDRS && IsSort(s, Kept(q)) && c == Fit(Canonical(q, s));
      var t :| |t| <= MAX_HDRS && IsSort(t, Kept(r)) && d == Fit(Canonical(r, t));
      SortsGiveOneText(q, r, s, t);
      SameEnds(q, r, |s|);
    }
  }

  /** The fingerprint does not depend on which correct sort is used, however many headers there are. */
  lemma FingerprintIsOne(r: Request)
    requires NoNul(r)
    ensures forall c, d :: IsFingerprint(r, c) && IsFingerprint(r, d) ==> c == d
  {
    hide NoNul, IsSort, Joined, Kept, Prefix;
    forall c, d | IsFingerprint(r, c) && IsFingerprint(r, d) ensures c == d {
      var s :| |s| <= MAX_HDRS && IsSort(s, Kept(r)) && c == Fit(Canonical(r, s));
      var t :| |t| <= MAX_HDRS && IsSort(t, Kept(r)) && d == Fit(Canonical(r, t));
      SortsGiveOneText(r, r, s, t);
    }
  }

  // ---- The code ----

  predicate HeaderSkip(name: string) {
    (|name| == 6 && Strncasecmp(name, "cookie") == 0) || (|name| == 7 && Strncasecmp(name, "referer") == 0)
  }

  lemma CookieCase(name: string)
    requires |name| == 6
    ensures Strncasecmp(name, "cookie") == 0 <==> Lower(name) == "cookie"
    ensures Strncasecmp(name, "Cookie") == 0 <==> Lower(name) == "cookie"
  {
    hide Strncasecmp, Lower, NulFree;
    CookieNames();
    CaseEqual(name, "cookie");
    CaseEqual(name, "Cookie");
  }

  lemma CookieNames()
    ensures NulFree("cookie") && NulFree("Cookie")
    ensures Lower("cookie") == "cookie" && Lower("Cookie") == "cookie"
  {
    assert Lower("cookie") == "cookie";
    assert Lower("Cookie") == "cookie";
  }

  lemma RefererCase(name: string)
    requires |name| == 7
    ensures Strncasecmp(name, "referer") == 0 <==> Lower(name) == "referer"
    ensures Strncasecmp(name, "Referer") == 0 <==> Lower(name) == "referer"
  {
    hide Strncasecmp, Lower, NulFree;
    RefererNames();
    CaseEqual(name, "referer");
    CaseEqual(name, "Referer");
  }

  lemma RefererNames()
    ensures NulFree("referer") && NulFree("Referer")
    ensures Lower("referer") == "referer" && Lower("Referer") == "referer"
  {
    assert Lower("referer") == "referer";
    assert Lower("Referer") == "referer";
  }

  /** The code's length-and-compare tests recognise exactly the two skipped names. */
  lemma SkipIsSkipped(name: string)
    ensures HeaderSkip(name) <==> Skipped(name)
    ensures |name| == 6 ==> (Strncasecmp(name, "Cookie") == 0 <==> Lower(name) == "cookie")
    ensures |name| == 7 ==> (Strncasecmp(name, "Referer") == 0 <==> Lower(name) == "referer")
  {
    hide Strncasecmp, Lower;
    OtherName(name);
    if |name| == 6 {
      CookieCase(name);
    }
    if |name| == 7 {
      RefererCase(name);
    }
  }

  /** One header more. */
  lemma WalkNext(hs: seq<Header>, h: Header)
    ensures Names(hs + [h]) == Names(hs) + (if h.hash == 0 || Skipped(h.key) then [] else [h.key])
    ensures forall n :: HasName(hs + [h], n) <==> HasName(hs, n) || (h.hash != 0 && Lower(h.key) == n)
  {
    assert (hs + [h])[..|hs|] == hs;
    forall n ensures HasName(hs + [h], n) <==> HasName(hs, n) || (h.hash != 0 && Lower(h.key) == n) {
      assert forall x :: x in hs + [h] <==> x in hs || x == h;
    }
  }

  lemma FlatNext(parts: seq<seq<Header>>, i: nat)
    requires i < |parts|
    ensures Flat(parts[..i + 1]) == Flat(parts[..i]) + parts[i]
  {
    assert parts[..i + 1][..i] == parts[..i];
  }

  /** Keeps the first names in the array and notes the two headers that are not listed. */
  method Walk(parts: seq<seq<Header>>, names: array<string>) returns (nhdr: nat, hasCookie: bool, hasReferer: bool)
    requires names.Length == MAX_HDRS
    modifies names
    ensures nhdr <= MAX_HDRS && names[..nhdr] == First(Names(Flat(parts)), MAX_HDRS)
    ensures hasCookie == HasName(Flat(parts), "cookie") && hasReferer == HasName(Flat(parts), "referer")
  {
    hide HeaderSkip, Skipped, Names, HasName, Strncasecmp, Lower, Flat;
    nhdr, hasCookie, hasReferer := 0, false, false;
    NothingWalked(parts);
    for k := 0 to |parts|
      invariant nhdr <= MAX_HDRS && names[..nhdr] == First(Names(Flat(parts[..k])), MAX_HDRS)
      invariant hasCookie == HasName(Flat(parts[..k]), "cookie") && hasReferer == HasName(Flat(parts[..k]), "referer")
    {
      var part := parts[k];
      ghost var before := Flat(parts[..k]);
      assert before + part[..0] == before;
      for i := 0 to |part|
        invariant nhdr <= MAX_HDRS && names[..nhdr] == First(Names(before + part[..i]), MAX_HDRS)
        invariant hasCookie == HasName(before + part[..i], "cookie")
        invariant hasReferer == HasName(before + part[..i], "referer")
      {
        var h := part[i];
        assert before + part[..i + 1] == (before + part[..i]) + [h];
        WalkNext(before + part[..i], h);
        SkipIsSkipped(h.key);
        if h.hash == 0 {
          continue;
        }
        OtherName(h.key);
        if |h.key| == 6 && Strncasecmp(h.key, "Cookie") == 0 {
          hasCookie := true;
        } else if |h.key| == 7 && Strncasecmp(h.key, "Referer") == 0 {
          hasReferer := true;
        }
        if !HeaderSkip(h.key) {
          if nhdr < MAX_HDRS {
            names[nhdr] := h.key;
            nhdr := nhdr + 1;
          }
        }
      }
      assert part[..|part|] == part;
      FlatNext(parts, k);
    }
    assert parts[..|parts|] == parts;
  }

  lemma OtherName(name: string)
    ensures |Lower(name)| == |name|
  {
  }

  lemma NothingWalked(parts: seq<seq<Header>>)
    ensures Names(Flat(parts[..0])) == [] && forall n :: !HasName(Flat(parts[..0]), n)
  {
  }

  lemma {:induction false} TagIs(value: string, j: nat)
    requires j <= |value| && forall k :: 0 <= k < j ==> !EndsTag(value[k])
    requires j < |value| ==> EndsTag(value[j])
    ensures TagOf(value) == value[..j]
  {
    if j > 0 {
      TagIs(value[1..], j - 1);
      assert value[..j] == [value[0]] + value[1..][..j - 1];
    }
  }

  method FirstLanguageTag(value: string) returns (tag: string)
    ensures tag == FirstTag(value)
  {
    var j := 0;
    while j < |value| && value[j] != ',' && value[j] != ';' && value[j] != ' '
      invariant j <= |value| && forall k :: 0 <= k < j ==> !EndsTag(value[k])
    {
      j := j + 1;
    }
    TagIs(value, j);
    tag := value[..if j > LANG_MAX then LANG_MAX else j];
  }

  /** Copies a string behind the text so far, or reports that it would reach the end. */
  method Append(canon: array<char>, p: nat, s: string) returns (q: nat, ok: bool)
    requires canon.Length == CANLEN && p < END
    modifies canon
    ensures ok <==> p + |s| < END
    ensures ok ==> q == p + |s| && canon[..q] == old(canon[..p]) + s
  {
    if p + |s| >= END {
      return p, false;
    }
    forall k | 0 <= k < |s| {
      canon[p + k] := s[k];
    }
    return p + |s|, true;
  }

  /** Two single-byte writes without a guard; their places are near the start. */
  method PutTwo(canon: array<char>, p: nat, pair: string) returns (q: nat)
    requires canon.Length == CANLEN && p <= 10 && |pair| == 2
    modifies canon
    ensures q == p + 2 && canon[..q] == old(canon[..p]) + pair
  {
    canon[p] := pair[0];
    canon[p + 1] := pair[1];
    return p + 2;
  }

  method AppendLower(canon: array<char>, p: nat, name: string) returns (q: nat, ok: bool)
    requires canon.Length == CANLEN && p < END
    modifies canon
    ensures ok <==> p + |name| < END
    ensures ok ==> q == p + |name| && canon[..q] == old(canon[..p]) + Lower(name)
  {
    q := p;
    if p + |name| >= END {
      return p, false;
    }
    for j := 0 to |name|
      invariant q == p + j
      invariant canon[..q] == old(canon[..p]) + Lower(name)[..j]
    {
      canon[q] := LowerChar(name[j]);
      q := q + 1;
      assert Lower(name)[..j + 1] == Lower(name)[..j] + [LowerChar(name[j])];
    }
    assert Lower(name)[..|name|] == Lower(name);
    return q, true;
  }

  lemma JoinedNext(names: seq<string>, i: nat)
    requires i < |names|
    ensures Joined(names[..i + 1]) == Joined(names[..i]) + (if i > 0 then "," else "") + Lower(names[i])
  {
    assert names[..i + 1][..i] == names[..i];
  }

  lemma {:induction false} JoinedGrows(names: seq<string>, i: nat)
    requires i <= |names|
    ensures |Joined(names[..i])| <= |Joined(names)|
  {
    if i < |names| {
      JoinedGrows(names[..|names| - 1], i);
      assert names[..|names| - 1][..i] == names[..i];
    } else {
      assert names[..i] == names;
    }
  }

  /** The lowercase names behind the text so far, comma separated. */
  method AppendNames(canon: array<char>, p: nat, names: array<string>, n: nat) returns (q: nat, ok: bool)
    requires canon.Length == CANLEN && p < END && n <= names.Length
    modifies canon
    ensures ok <==> p + |Joined(names[..n])| < END
    ensures ok ==> q == p + |Joined(names[..n])| && canon[..q] == old(canon[..p]) + Joined(names[..n])
  {
    hide Joined, Lower;
    ghost var all := names[..n];
    q, ok := p, true;
    NothingJoined();
    assert all[..0] == [];
    for i := 0 to n
      invariant names[..n] == all
      invariant q == p + |Joined(all[..i])| < END && canon[..q] == old(canon[..p]) + Joined(all[..i])
    {
      JoinedNext(all, i);
      JoinedGrows(all, i + 1);
      if i > 0 {
        q, ok := Append(canon, q, ",");
        if !ok {
          return q, false;
        }
      }
      q, ok := AppendLower(canon, q, names[i]);
      if !ok {
        return q, false;
      }
    }
    assert all[..n] == all;
    return q, true;
  }

  lemma NothingJoined()
    ensures Joined([]) == []
  {
  }

  /** The part before the names: two guarded fields, two bare bytes, a bar, two bare digits, a bar. */
  method AppendPrefix(canon: array<char>, r: Request, hasCookie: bool, hasReferer: bool, nhdr: nat) returns (p: nat)
    requires canon.Length == CANLEN && nhdr <= MAX_HDRS
    requires hasCookie == HasName(Flat(r.parts), "cookie") && hasReferer == HasName(Flat(r.parts), "referer")
    modifies canon
    ensures p == 12 && canon[..p] == Prefix(r, nhdr)
  {
    hide MethodText, VersionText, HasName, Flat, Flag, TwoDigits;
    var ok;
    p, ok := Append(canon, 0, MethodText(r.meth));
    p, ok := Append(canon, p, "|");
    p, ok := Append(canon, p, VersionText(r.version));
    p, ok := Append(canon, p, "|");
    assert canon[..p] == MethodText(r.meth) + "|" + VersionText(r.version) + "|";
    p := PutTwo(canon, p, [Flag(hasCookie), Flag(hasReferer)]);
    p, ok := Append(canon, p, "|");
    var count: int := if nhdr > 99 then 99 else nhdr;
    p := PutTwo(canon, p, TwoDigits(count));
    p, ok := Append(canon, p, "|");
  }

  /** Sorts the names in place by whatever correct sort there is. */
  method SortNames(names: array<string>, nhdr: nat, sort: seq<string> -> seq<string>)
    requires nhdr <= names.Length && forall s :: IsSort(sort(s), s)
    modifies names
    ensures IsSort(names[..nhdr], old(names[..nhdr]))
  {
    hide IsSort;
    ghost var kept := names[..nhdr];
    if nhdr > 1 {
      var sorted := sort(names[..nhdr]);
      SortSize(sorted, kept);
      forall k | 0 <= k < nhdr {
        names[k] := sorted[k];
      }
      assert names[..nhdr] == sorted;
    } else {
      ShortIsSorted(kept);
    }
  }

  /** Writes the canonical string into the buffer, or reports that it does not fit. */
  method WriteCanonical(r: Request, names: array<string>, nhdr: nat, hasCookie: bool, hasReferer: bool,
                        language: string)
    returns (canonical: Option<string>)
    requires nhdr <= MAX_HDRS <= names.Length && language == LanguageText(r)
    requires hasCookie == HasName(Flat(r.parts), "cookie") && hasReferer == HasName(Flat(r.parts), "referer")
    ensures canonical == Fit(Canonical(r, names[..nhdr]))
  {
    hide Joined, Prefix, HasName, Flat, LanguageText;
    ghost var s := names[..nhdr];
    var canon := new char[CANLEN](_ => '\0');
    var p := AppendPrefix(canon, r, hasCookie, hasReferer, nhdr);
    var ok;
    p, ok := AppendNames(canon, p, names, nhdr);
    if !ok {
      return None;
    }
    p, ok := Append(canon, p, "|");
    if !ok {
      return None;
    }
    if language != [] {
      p, ok := Append(canon, p, language);
      if !ok {
        return None;
      }
    }
    canon[p] := '\0';
    assert canon[..p] == Canonical(r, s);
    return Some(canon[..p]);
  }

  /** The canonical string, or nothing when it would not fit. No byte is written outside the buffer. */
  method Compute(r: Request, sort: seq<string> -> seq<string>) returns (canonical: Option<string>)
    requires forall s :: IsSort(sort(s), s)
    ensures IsFingerprint(r, canonical)
  {
    hide IsSort, Canonical, HasName, Names, Flat, FirstTag, First;
    var names := new string[MAX_HDRS](_ => []);
    var nhdr, hasCookie, hasReferer := Walk(r.parts, names);
    SortNames(names, nhdr, sort);
    var language := [];
    if r.language.Some? {
      language := FirstLanguageTag(r.language.value);
    }
    canonical := WriteCanonical(r, names, nhdr, hasCookie, hasReferer, language);
  }

  lemma SortSize(s: seq<string>, names: seq<string>)
    requires IsSort(s, names)
    ensures |s| == |names|
  {
    SameSize(s, names);
  }

  lemma ShortIsSorted(names: seq<string>)
    requires |names| <= 1
    ensures IsSort(names, names)
  {
  }
}
