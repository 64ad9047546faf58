/** Beyond the limit on listed headers the fingerprint does depend on their order. */
module Ja4hLimit {
  import opened HeaderNames
  import opened Ja4h
  import opened Options

  /** The longest names of which any MAX_HDRS fit the buffer. */
  const SHORT: nat := 62

  predicate Plain(name: string) {
    |name| <= SHORT && ',' !in Lower(name)
  }

  // ---- The string tells the names ----

  /** Where the last comma of such a text is. */
  lemma CommaAt(a: string, b: string)
    requires ',' !in b
    ensures var s := a + "," + b;
      && s[|a|] == ',' && forall k :: |a| < k < |s| ==> s[k] != ','
  {
    var s := a + "," + b;
    forall k | |a| < k < |s| ensures s[k] != ',' {
      assert s[k] == b[k - |a| - 1];
    }
  }

  lemma LastComma(a: string, b: string, c: string, d: string)
    requires a + "," + b == c + "," + d && ',' !in b && ',' !in d
    ensures a == c && b == d
  {
    CommaAt(a, b);
    CommaAt(c, d);
    var s, t := a + "," + b, c + "," + d;
    assert |a| == |c|;
    assert a == s[..|a|] && c == t[..|c|] && b == s[|a| + 1..] && d == t[|c| + 1..];
  }

  lemma JoinedLast(s: seq<string>)
    requires |s| > 1
    ensures Joined(s) == Joined(s[..|s| - 1]) + "," + Lower(s[|s| - 1])
  {
  }

  lemma JoinedOne(s: seq<string>)
    requires |s| == 1
    ensures Joined(s) == Lower(s[0])
  {
    assert Joined(s[..0]) == [] && [] + [] + Lower(s[0]) == Lower(s[0]);
  }

  /** Equally many names without commas are known from their joined text, up to case. */
  lemma {:induction false} JoinedInjective(s: seq<string>, t: seq<string>)
    requires |s| == |t| && Joined(s) == Joined(t)
    requires forall k :: 0 <= k < |s| ==> Plain(s[k]) && Plain(t[k])
    ensures LowerAll(s) == LowerAll(t)
  {
    hide Joined, Lower;
    if |s| == 1 {
      JoinedOne(s);
      JoinedOne(t);
    } else if |s| > 1 {
      var n := |s| - 1;
      JoinedLast(s);
      JoinedLast(t);
      LastComma(Joined(s[..n]), Lower(s[n]), Joined(t[..n]), Lower(t[n]));
      JoinedInjective(s[..n], t[..n]);
      assert LowerAll(s) == LowerAll(s[..n]) + [Lower(s[n])] && LowerAll(t) == LowerAll(t[..n]) + [Lower(t[n])];
    }
  }

  /** Short names fit. */
  lemma {:induction false} JoinedShort(s: seq<string>)
    requires forall k :: 0 <= k < |s| ==> Plain(s[k])
    ensures |Joined(s)| <= (SHORT + 1) * |s|
  {
    hide Lower;
    if s != [] {
      var n := |s| - 1;
      JoinedShort(s[..n]);
      OtherName(s[n]);
    }
  }

  lemma CanonicalFits(r: Request, s: seq<string>)
    requires |s| <= MAX_HDRS && forall k :: 0 <= k < |s| ==> Plain(s[k])
    ensures Fit(Canonical(r, s)) == Some(Canonical(r, s))
  {
    JoinedShort(s);
    hide Joined, Prefix, FirstTag, Plain;
    LanguageShort(r);
  }

  lemma LanguageShort(r: Request)
    ensures |LanguageText(r)| <= LANG_MAX
  {
  }

  lemma Middle(a: string, x: string, b: string, y: string, bar: string, tail: string)
    requires |a| == |b| && a + x + bar + tail == b + y + bar + tail
    ensures x == y
  {
    var s, t := a + x + bar + tail, b + y + bar + tail;
    assert |x| == |y|;
    assert x == s[|a|..|a| + |x|] && y == t[|b|..|b| + |y|];
  }

  lemma CanonicalTells(q: Request, r: Request, s: seq<string>, t: seq<string>)
    requires |s| == |t| <= MAX_HDRS && q.language == r.language && Canonical(q, s) == Canonical(r, t)
    ensures Joined(s) == Joined(t)
  {
    hide Joined, Prefix, FirstTag;
    Middle(Prefix(q, |s|), Joined(s), Prefix(r, |t|), Joined(t), "|", LanguageText(r));
  }

  // ---- Reordering a request ----

  predicate IsListed(h: Header) {
    h.hash != 0 && !Skipped(h.key)
  }

  /** The listed headers, or the others, in order. */
  function Part(hs: seq<Header>, listed: bool): seq<Header> {
    if hs == [] then []
    else
      var h := hs[|hs| - 1];
      Part(hs[..|hs| - 1], listed) + (if IsListed(h) == listed then [h] else [])
  }

  function Only<T>(chosen: bool, x: T): multiset<T> {
    if chosen then multiset{x} else multiset{}
  }

  lemma {:induction false} PartsAreAll(hs: seq<Header>)
    ensures multiset(Part(hs, true)) + multiset(Part(hs, false)) == multiset(hs)
  {
    hide IsListed, Only;
    if hs != [] {
      var n := |hs| - 1;
      PartsAreAll(hs[..n]);
      hide Part;
      PartNext(hs, true);
      PartNext(hs, false);
      Added(multiset(Part(hs[..n], true)), multiset(Part(hs[..n], false)), hs[n], IsListed(hs[n]));
      LastHeader(hs);
    }
  }

  lemma LastHeader(hs: seq<Header>)
    requires hs != []
    ensures multiset(hs) == multiset(hs[..|hs| - 1]) + multiset{hs[|hs| - 1]}
  {
    assert hs == hs[..|hs| - 1] + [hs[|hs| - 1]];
  }

  lemma Added<T>(a: multiset<T>, b: multiset<T>, x: T, first: bool)
    ensures (a + Only(first, x)) + (b + Only(!first, x)) == a + b + multiset{x}
  {
  }

  lemma PartNext(hs: seq<Header>, listed: bool)
    requires hs != []
    ensures var n := |hs| - 1;
      multiset(Part(hs, listed))
      == multiset(Part(hs[..n], listed)) + Only(if listed then IsListed(hs[n]) else !IsListed(hs[n]), hs[n])
  {
    hide IsListed;
  }

  lemma {:induction false} PartMembers(hs: seq<Header>, listed: bool)
    ensures forall k :: 0 <= k < |Part(hs, listed)| ==> IsListed(Part(hs, listed)[k]) == listed
  {
    hide IsListed;
    if hs != [] {
      PartMembers(hs[..|hs| - 1], listed);
    }
  }

  function Keys(hs: seq<Header>): (k: seq<string>)
    ensures |k| == |hs| && forall i :: 0 <= i < |hs| ==> k[i] == hs[i].key
  {
    seq(|hs|, i requires 0 <= i < |hs| => hs[i].key)
  }

  lemma {:induction false} NamesOfPart(hs: seq<Header>)
    ensures Names(hs) == Keys(Part(hs, true))
  {
    hide Skipped;
    if hs != [] {
      NamesOfPart(hs[..|hs| - 1]);
    }
  }

  /** Listed headers first, then some that are not: exactly the former are named. */
  lemma {:induction false} NamesInFront(a: seq<Header>, b: seq<Header>)
    requires forall k :: 0 <= k < |a| ==> IsListed(a[k])
    requires forall k :: 0 <= k < |b| ==> !IsListed(b[k])
    ensures Names(a + b) == Keys(a)
    decreases |a| + |b|
  {
    hide Skipped;
    if b != [] {
      var n := |b| - 1;
      assert (a + b)[..|a + b| - 1] == a + b[..n];
      NamesInFront(a, b[..n]);
    } else if a != [] {
      var n := |a| - 1;
      assert a + b == a && a[..n] + b == a[..n];
      NamesInFront(a[..n], b);
    }
  }

  lemma {:induction false} FoldKeeps(a: seq<Header>, b: seq<Header>)
    requires multiset(a) == multiset(b)
    ensures multiset(Fold(a)) == multiset(Fold(b))
    decreases |a|
  {
    hide Fold, Rest;
    SameSize(a, b);
    if a == [] {
      assert a == b;
    } else {
      var i :| 0 <= i < |b| && b[i] == a[0];
      WithoutOne(a, b, i);
      FoldKeeps(a[1..], Rest(b, i));
      FoldRest(a, 0);
      RestOfHead(a);
      FoldRest(b, i);
    }
  }

  lemma FoldRest(a: seq<Header>, i: nat)
    requires i < |a|
    ensures multiset(Fold(a)) == multiset(Fold(Rest(a, i))) + multiset{Folded(a[i].hash != 0, Lower(a[i].key))}
  {
    hide Lower;
    assert Rest(Fold(a), i) == Fold(Rest(a, i));
    hide Fold, Rest;
    Without(Fold(a), i);
    FoldAt(a, i);
  }

  lemma FoldAt(a: seq<Header>, i: nat)
    requires i < |a|
    ensures Fold(a)[i] == Folded(a[i].hash != 0, Lower(a[i].key))
  {
  }

  /** The request with these headers, in one part. */
  function With(r: Request, hs: seq<Header>): Request {
    r.(parts := [hs])
  }

  lemma FlatOne(r: Request, hs: seq<Header>)
    ensures Flat(With(r, hs).parts) == hs
  {
    var parts := With(r, hs).parts;
    assert parts[..0] == [] && Flat(parts) == Flat(parts[..0]) + parts[0];
    assert [] + hs == hs;
  }

  /** `front` is the listed headers of `r` in some order. */
  lemma Reordered(r: Request, front: seq<Header>) returns (q: Request)
    requires multiset(front) == multiset(Part(Flat(r.parts), true))
    ensures SameHeaders(q, r) && Names(Flat(q.parts)) == Keys(front)
    ensures multiset(Flat(q.parts)) == multiset(Flat(r.parts))
  {
    hide Part, Fold, Names, IsListed, Flat;
    var hs := Flat(r.parts);
    var back := Part(hs, false);
    q := With(r, front + back);
    FlatOne(r, front + back);
    PartsAreAll(hs);
    FoldKeeps(front + back, hs);
    PartMembers(hs, true);
    PartMembers(hs, false);
    forall k | 0 <= k < |front| ensures IsListed(front[k]) {
      assert front[k] in multiset(Part(hs, true));
    }
    NamesInFront(front, back);
  }

  // ---- The converse ----

  ghost predicate IgnoresOrder(r: Request) {
    forall q, c, d :: NoNul(q) && SameHeaders(q, r) && IsFingerprint(q, c) && IsFingerprint(r, d) ==> c == d
  }

  predicate OneName(names: seq<string>) {
    forall i, j :: 0 <= i < |names| && 0 <= j < |names| ==> Lower(names[i]) == Lower(names[j])
  }

  lemma NoNulKept(q: Request, r: Request)
    requires NoNul(r) && multiset(Flat(q.parts)) == multiset(Flat(r.parts))
    ensures NoNul(q)
  {
    hide Flat, NulFree;
    forall h | h in Flat(q.parts) ensures NulFree(h.key) {
      assert h in multiset(Flat(q.parts));
    }
  }

  lemma SortedArePlain(s: seq<string>, names: seq<string>)
    requires IsSort(s, names) && forall k :: 0 <= k < |names| ==> Plain(names[k])
    ensures |s| == |names| && forall k :: 0 <= k < |s| ==> Plain(s[k])
  {
    hide Plain, NameOrder;
    SortSize(s, names);
    forall k | 0 <= k < |s| ensures Plain(s[k]) {
      assert s[k] in multiset(names);
    }
  }

  /** Requests whose fingerprints agree keep the same lowercase names. */
  lemma SameKept(q: Request, r: Request, s: seq<string>, t: seq<string>)
    requires IsSort(s, Kept(q)) && IsSort(t, Kept(r)) && |Kept(q)| == |Kept(r)| && q.language == r.language
    requires forall k :: 0 <= k < |Kept(q)| ==> Plain(Kept(q)[k])
    requires forall k :: 0 <= k < |Kept(r)| ==> Plain(Kept(r)[k])
    requires |s| <= MAX_HDRS && |t| <= MAX_HDRS && Fit(Canonical(q, s)) == Fit(Canonical(r, t))
    ensures multiset(LowerAll(Kept(q))) == multiset(LowerAll(Kept(r)))
  {
    SortMultiset(s, Kept(q));
    SortMultiset(t, Kept(r));
    hide Plain, IsSort, Kept, Canonical, Joined, LowerAll, Fit;
    SortedArePlain(s, Kept(q));
    SortedArePlain(t, Kept(r));
    CanonicalFits(q, s);
    CanonicalFits(r, t);
    CanonicalTells(q, r, s, t);
    JoinedInjective(s, t);
    LowerKeepsMultiset(s, Kept(q));
    LowerKeepsMultiset(t, Kept(r));
  }

  lemma SortMultiset(s: seq<string>, names: seq<string>)
    requires IsSort(s, names)
    ensures multiset(s) == multiset(names)
  {
  }

  /** Two orders of the listed headers that keep different names, from two different names. */
  lemma TwoOrders(hs: seq<Header>, i: nat, j: nat) returns (p: seq<Header>, q: seq<Header>)
    requires MAX_HDRS < |hs| && i < j < |hs| && Lower(hs[i].key) != Lower(hs[j].key)
    ensures multiset(p) == multiset(hs) && multiset(q) == multiset(hs)
    ensures multiset(LowerAll(First(Keys(p), MAX_HDRS))) != multiset(LowerAll(First(Keys(q), MAX_HDRS)))
  {
    var x, y := hs[i], hs[j];
    var rest := hs[..i] + hs[i + 1..j] + hs[j + 1..];
    p, q := [x] + rest + [y], [y] + rest + [x];
    Around(hs, i, j);
    Ends(x, rest, y, MAX_HDRS);
    Ends(y, rest, x, MAX_HDRS);
    Differ(multiset(rest[..MAX_HDRS - 1]), x, y);
    FirstKeys(x, rest, y);
    FirstKeys(y, rest, x);
    hide Lower, LowerAll, Keys, First;
    Differ(multiset(LowerAll(Keys(rest[..MAX_HDRS - 1]))), Lower(x.key), Lower(y.key));
  }

  lemma FirstKeys(x: Header, rest: seq<Header>, y: Header)
    requires MAX_HDRS <= |rest| + 1
    ensures multiset(LowerAll(First(Keys([x] + rest + [y]), MAX_HDRS)))
            == multiset(LowerAll(Keys(rest[..MAX_HDRS - 1]))) + multiset{Lower(x.key)}
  {
    hide Lower;
    var n := MAX_HDRS - 1;
    assert First(Keys([x] + rest + [y]), MAX_HDRS) == [x.key] + Keys(rest[..n]);
    assert LowerAll([x.key] + Keys(rest[..n])) == [Lower(x.key)] + LowerAll(Keys(rest[..n]));
  }

  lemma KeptPlain(q: Request, r: Request, front: seq<Header>)
    requires Names(Flat(q.parts)) == Keys(front)
    requires multiset(front) == multiset(Part(Flat(r.parts), true))
    requires forall n :: n in Names(Flat(r.parts)) ==> Plain(n)
    ensures Kept(q) == First(Keys(front), MAX_HDRS)
    ensures forall k :: 0 <= k < |Kept(q)| ==> Plain(Kept(q)[k])
  {
    hide Plain, Part, Names, Flat;
    var hs := Flat(r.parts);
    NamesOfPart(hs);
    var listed := Part(hs, true);
    forall k | 0 <= k < |front| ensures Plain(front[k].key) {
      assert front[k] in multiset(listed);
      var i :| 0 <= i < |listed| && listed[i] == front[k];
      assert Keys(listed)[i] == front[k].key;
    }
  }

  /** With more than MAX_HDRS listed headers and two different names, some order changes the fingerprint. */
  lemma OrderShows(r: Request, sort: seq<string> -> seq<string>, i: nat, j: nat)
    requires NoNul(r) && forall s :: IsSort(sort(s), s)
    requires forall n :: n in Names(Flat(r.parts)) ==> Plain(n)
    requires MAX_HDRS < |Names(Flat(r.parts))| && i < j < |Names(Flat(r.parts))|
    requires Lower(Names(Flat(r.parts))[i]) != Lower(Names(Flat(r.parts))[j])
    ensures !IgnoresOrder(r)
  {
    hide NoNul, IsSort, Plain, Kept, Part, Names, Flat, Lower, Canonical, Fit, LowerAll, First, SameHeaders;
    var hs := Part(Flat(r.parts), true);
    NamesOfPart(Flat(r.parts));
    var a, b := TwoOrders(hs, i, j);
    var p := Reordered(r, a);
    var q := Reordered(r, b);
    NoNulKept(p, r);
    NoNulKept(q, r);
    KeptPlain(p, r, a);
    KeptPlain(q, r, b);
    var s, t, u := sort(Kept(p)), sort(Kept(q)), sort(Kept(r));
    SortFits(s, p);
    SortFits(t, q);
    SortFits(u, r);
    var c, d, e := Fit(Canonical(p, s)), Fit(Canonical(q, t)), Fit(Canonical(r, u));
    assert IsFingerprint(p, c) && IsFingerprint(q, d) && IsFingerprint(r, e);
    if IgnoresOrder(r) {
      assert c == e && d == e;
      SameCount(a, b);
      SameLanguage(p, r);
      SameLanguage(q, r);
      SameKept(p, q, s, t);
    }
  }

  lemma SortFits(s: seq<string>, r: Request)
    requires IsSort(s, Kept(r))
    ensures |s| <= MAX_HDRS
  {
    SortSize(s, Kept(r));
  }

  lemma SameCount(a: seq<Header>, b: seq<Header>)
    requires multiset(a) == multiset(b)
    ensures |First(Keys(a), MAX_HDRS)| == |First(Keys(b), MAX_HDRS)|
  {
    SameSize(a, b);
  }

  lemma SameLanguage(q: Request, r: Request)
    requires SameHeaders(q, r)
    ensures q.language == r.language
  {
  }

  /** Lists of one name, whatever its case, of one length. */
  lemma OneNameKept(q: Request, r: Request)
    requires SameHeaders(q, r) && OneName(Names(Flat(r.parts)))
    ensures multiset(LowerAll(Kept(q))) == multiset(LowerAll(Kept(r)))
  {
    hide Lower, Names, Flat, Fold;
    NamesFolded(Flat(q.parts), Flat(r.parts));
    var a, b := Names(Flat(q.parts)), Names(Flat(r.parts));
    forall k | 0 <= k < |a| ensures LowerAll(a)[k] == LowerAll(b)[k] {
      assert LowerAll(a)[k] in multiset(LowerAll(b));
    }
    assert LowerAll(Kept(q)) == LowerAll(Kept(r));
  }

  /**
   For short names without commas the fingerprint ignores the order of the
   headers exactly while none is left out, or all have one name.
   */
  lemma FingerprintOrderExact(r: Request, sort: seq<string> -> seq<string>)
    requires NoNul(r) && forall s :: IsSort(sort(s), s)
    requires forall n :: n in Names(Flat(r.parts)) ==> Plain(n)
    ensures IgnoresOrder(r) <==> |Names(Flat(r.parts))| <= MAX_HDRS || OneName(Names(Flat(r.parts)))
  {
    hide NoNul, IsSort, Plain, Names, Flat, Lower, IsFingerprint, SameHeaders, Kept;
    var names := Names(Flat(r.parts));
    if |names| <= MAX_HDRS || OneName(names) {
      forall q, c, d | NoNul(q) && SameHeaders(q, r) && IsFingerprint(q, c) && IsFingerprint(r, d) ensures c == d {
        Agree(q, r);
      }
    } else {
      var i, j :| 0 <= i < |names| && 0 <= j < |names| && Lower(names[i]) != Lower(names[j]);
      if i < j {
        OrderShows(r, sort, i, j);
      } else {
        OrderShows(r, sort, j, i);
      }
    }
  }

  lemma Agree(q: Request, r: Request)
    requires NoNul(q) && NoNul(r) && SameHeaders(q, r)
    requires |Names(Flat(r.parts))| <= MAX_HDRS || OneName(Names(Flat(r.parts)))
    ensures forall c, d :: IsFingerprint(q, c) && IsFingerprint(r, d) ==> c == d
  {
    SameNumber(q, r);
    if |Names(Flat(r.parts))| <= MAX_HDRS {
      hide *;
      FingerprintIgnoresOrderAndCase(q, r);
    } else {
      OneNameAgree(q, r);
    }
  }

  lemma SameNumber(q: Request, r: Request)
    requires SameHeaders(q, r)
    ensures |Names(Flat(q.parts))| == |Names(Flat(r.parts))|
    ensures forall n :: HasName(Flat(q.parts), n) <==> HasName(Flat(r.parts), n)
  {
    hide Names, Flat, Fold, HasName;
    NamesFolded(Flat(q.parts), Flat(r.parts));
  }

  lemma OneNameAgree(q: Request, r: Request)
    requires NoNul(q) && NoNul(r) && SameHeaders(q, r) && OneName(Names(Flat(r.parts)))
    ensures forall c, d :: IsFingerprint(q, c) && IsFingerprint(r, d) ==> c == d
  {
    hide NoNul, IsSort, Joined, Names, Flat, HasName, Kept, Prefix, LanguageText, LowerAll, OneName, SameHeaders;
    OneNameKept(q, r);
    SameNumber(q, r);
    forall c, d | IsFingerprint(q, c) && IsFingerprint(r, d) ensures c == d {
      var s :| |s| <= MAX_HDRS && IsSort(s, Kept(q)) && c == Fit(Canonical(q, s));
      var t :| |t| <= MAX_HDRS && IsSort(t, Kept(r)) && d == Fit(Canonical(r, t));
      SortsGiveOneText(q, r, s, t);
      SameEnds(q, r, |s|);
    }
  }
}
