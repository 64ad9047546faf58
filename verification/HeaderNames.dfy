/** Header names as the fingerprint compares, skips, keeps and orders them. */
module HeaderNames {
  import opened Keys

  const MAX_HDRS: nat := 64

  /** A request header; hash 0 marks one that was removed. */
  datatype Header = Header(hash: nat, key: string)

  /** A header without its letter case. */
  datatype Folded = Folded(live: bool, name: string)

  function LowerChar(c: char): char {
    if 'A' <= c <= 'Z' then (c as int + 32) as char else c
  }

  function Lower(s: string): (r: string)
    ensures |r| == |s| && forall i :: 0 <= i < |s| ==> r[i] == LowerChar(s[i])
  {
    seq(|s|, i requires 0 <= i < |s| => LowerChar(s[i]))
  }

  predicate NulFree(s: string) {
    forall c :: c in s ==> c != '\0'
  }

  lemma NulFreeTail(s: string)
    requires s != [] && NulFree(s)
    ensures NulFree(s[1..]) && s[0] != '\0'
  {
    assert forall c :: c in s[1..] ==> c in s;
    assert s[0] in s;
  }

  // ---- Comparing ----

  /** Compares two strings of one length without case; stops at a NUL. */
  function Strncasecmp(a: string, b: string): int
    requires |a| == |b|
  {
    if a == [] then 0
    else
      var c1, c2 := LowerChar(a[0]), LowerChar(b[0]);
      if c1 != c2 then c1 as int - c2 as int
      else if c1 == '\0' then 0
      else Strncasecmp(a[1..], b[1..])
  }

  function NameOrder(a: string, b: string): int {
    var n := if |a| < |b| then |a| else |b|;
    var rc := Strncasecmp(a[..n], b[..n]);
    if rc != 0 then rc else |a| - |b|
  }

  lemma {:induction false} CaseEqual(a: string, b: string)
    requires |a| == |b| && NulFree(b)
    ensures Strncasecmp(a, b) == 0 <==> Lower(a) == Lower(b)
  {
    if a != [] {
      NulFreeTail(b);
      CaseEqual(a[1..], b[1..]);
      assert Lower(a) == [LowerChar(a[0])] + Lower(a[1..]) && Lower(b) == [LowerChar(b[0])] + Lower(b[1..]);
    }
  }

  /** On names without NUL the order is that of the lowercase names. */
  lemma {:induction false} NameOrderIsCompare(a: string, b: string)
    requires NulFree(a) && NulFree(b)
    ensures NameOrder(a, b) < 0 <==> Compare(Lower(a), Lower(b)) < 0
    ensures NameOrder(a, b) == 0 <==> Lower(a) == Lower(b)
  {
    CompareAntisymmetric(Lower(a), Lower(b));
    if a != [] && b != [] {
      NulFreeTail(a);
      NulFreeTail(b);
      NameOrderIsCompare(a[1..], b[1..]);
      var n := if |a| < |b| then |a| else |b|;
      assert a[..n][1..] == a[1..][..n - 1] && b[..n][1..] == b[1..][..n - 1];
      assert Lower(a)[1..] == Lower(a[1..]) && Lower(b)[1..] == Lower(b[1..]);
      assert Lower(a) == [LowerChar(a[0])] + Lower(a[1..]) && Lower(b) == [LowerChar(b[0])] + Lower(b[1..]);
    }
  }

  // ---- Keeping ----

  predicate Skipped(name: string) {
    Lower(name) == "cookie" || Lower(name) == "referer"
  }

  /** The names that enter the list, in request order. */
  function Names(hs: seq<Header>): seq<string> {
    if hs == [] then []
    else
      var h := hs[|hs| - 1];
      Names(hs[..|hs| - 1]) + (if h.hash == 0 || Skipped(h.key) then [] else [h.key])
  }

  function First<T>(s: seq<T>, n: nat): (r: seq<T>)
    ensures |r| <= n
  {
    if |s| <= n then s else s[..n]
  }

  predicate HasName(hs: seq<Header>, name: string) {
    exists h :: h in hs && h.hash != 0 && Lower(h.key) == name
  }

  function Fold(hs: seq<Header>): (r: seq<Folded>)
    ensures |r| == |hs|
  {
    seq(|hs|, i requires 0 <= i < |hs| => Folded(hs[i].hash != 0, Lower(hs[i].key)))
  }

  function LowerAll(names: seq<string>): (r: seq<string>)
    ensures |r| == |names| && forall i :: 0 <= i < |names| ==> r[i] == Lower(names[i])
  {
    seq(|names|, i requires 0 <= i < |names| => Lower(names[i]))
  }

  lemma FoldNext(hs: seq<Header>)
    requires hs != []
    ensures var n := |hs| - 1;
      Fold(hs) == Fold(hs[..n]) + [Folded(hs[n].hash != 0, Lower(hs[n].key))]
  {
  }

  lemma LowerAllParts(a: seq<string>, b: seq<string>)
    ensures LowerAll(a + b) == LowerAll(a) + LowerAll(b)
  {
  }

  /** How often a name is listed is read off the folded headers. */
  lemma {:induction false} NamesCount(hs: seq<Header>, name: string)
    ensures multiset(LowerAll(Names(hs)))[name]
            == if name == "cookie" || name == "referer" then 0 else multiset(Fold(hs))[Folded(true, name)]
  {
    hide Lower, LowerAll, Fold;
    if hs == [] {
      NoNames();
    } else {
      var n := |hs| - 1;
      NamesCount(hs[..n], name);
      FoldNext(hs);
      LowerAllParts(Names(hs[..n]), if hs[n].hash == 0 || Skipped(hs[n].key) then [] else [hs[n].key]);
      assert LowerAll([hs[n].key]) == [Lower(hs[n].key)];
      NoNames();
    }
  }

  lemma NoNames()
    ensures LowerAll([]) == [] && Fold([]) == []
  {
  }

  lemma HasNameFolded(hs: seq<Header>, name: string)
    ensures HasName(hs, name) <==> Folded(true, name) in Fold(hs)
  {
    if HasName(hs, name) {
      var h :| h in hs && h.hash != 0 && Lower(h.key) == name;
      var i :| 0 <= i < |hs| && hs[i] == h;
      assert Fold(hs)[i] == Folded(true, name);
    }
    if Folded(true, name) in Fold(hs) {
      var i :| 0 <= i < |hs| && Fold(hs)[i] == Folded(true, name);
      assert hs[i] in hs;
    }
  }

  /** Requests that differ only in header order and letter case list the same lowercase names. */
  lemma NamesFolded(g: seq<Header>, h: seq<Header>)
    requires multiset(Fold(g)) == multiset(Fold(h))
    ensures multiset(LowerAll(Names(g))) == multiset(LowerAll(Names(h))) && |Names(g)| == |Names(h)|
    ensures forall n :: HasName(g, n) <==> HasName(h, n)
  {
    hide Names, Fold, HasName;
    forall n ensures multiset(LowerAll(Names(g)))[n] == multiset(LowerAll(Names(h)))[n] {
      NamesCount(g, n);
      NamesCount(h, n);
    }
    assert |multiset(LowerAll(Names(g)))| == |Names(g)| && |multiset(LowerAll(Names(h)))| == |Names(h)|;
    forall n ensures HasName(g, n) <==> HasName(h, n) {
      HasNameFolded(g, n);
      HasNameFolded(h, n);
      assert Folded(true, n) in Fold(g) <==> Folded(true, n) in multiset(Fold(g));
      assert Folded(true, n) in Fold(h) <==> Folded(true, n) in multiset(Fold(h));
    }
  }

  // ---- Ordering ----

  /** What any correct sort with `NameOrder` may return. */
  ghost predicate IsSort(s: seq<string>, names: seq<string>) {
    multiset(s) == multiset(names) && forall i, j :: 0 <= i < j < |s| ==> NameOrder(s[i], s[j]) <= 0
  }

  ghost predicate Ascending(s: seq<string>) {
    forall i, j :: 0 <= i < j < |s| ==> Compare(s[i], s[j]) <= 0
  }

  lemma {:induction false} AscendingIsUnique(s: seq<string>, t: seq<string>)
    requires Ascending(s) && Ascending(t) && multiset(s) == multiset(t)
    ensures s == t
  {
    hide Compare, Ascending, Rest;
    SameSize(s, t);
    if s != [] {
      AscendingHead(s, t[0]);
      AscendingHead(t, s[0]);
      CompareAntisymmetric(s[0], t[0]);
      WithoutOne(s, t, 0);
      RestOfHead(t);
      AscendingIsUnique(s[1..], t[1..]);
      assert s == [s[0]] + s[1..] && t == [t[0]] + t[1..];
    }
  }

  lemma SameSize<T>(s: seq<T>, t: seq<T>)
    requires multiset(s) == multiset(t)
    ensures |s| == |t| && (s != [] ==> s[0] in t && t[0] in s)
  {
    assert |multiset(s)| == |s| && |multiset(t)| == |t|;
    if s != [] {
      assert s[0] in multiset(t) && t[0] in multiset(s);
    }
  }

  lemma AscendingHead(s: seq<string>, x: string)
    requires Ascending(s) && x in s
    ensures (s[0] == x || Compare(s[0], x) <= 0) && Ascending(s[1..])
  {
    hide Compare;
    var i :| 0 <= i < |s| && s[i] == x;
  }

  /** The sequence without its element at `i`. */
  function Rest<T>(l: seq<T>, i: nat): (r: seq<T>)
    requires i < |l|
    ensures |r| == |l| - 1
  {
    l[..i] + l[i + 1..]
  }

  lemma RestOfHead<T>(l: seq<T>)
    requires l != []
    ensures Rest(l, 0) == l[1..]
  {
  }

  lemma Without<T>(l: seq<T>, i: nat)
    requires i < |l|
    ensures multiset(l) == multiset(Rest(l, i)) + multiset{l[i]}
  {
    assert l == l[..i] + [l[i]] + l[i + 1..];
  }

  lemma Cancel<T>(a: multiset<T>, b: multiset<T>, x: T)
    requires a + multiset{x} == b + multiset{x}
    ensures a == b
  {
    assert a == (a + multiset{x}) - multiset{x};
  }

  lemma WithoutOne<T>(s: seq<T>, t: seq<T>, i: nat)
    requires s != [] && i < |t| && t[i] == s[0] && multiset(s) == multiset(t)
    ensures multiset(s[1..]) == multiset(Rest(t, i))
  {
    hide Rest;
    Without(s, 0);
    RestOfHead(s);
    Without(t, i);
    Cancel(multiset(s[1..]), multiset(Rest(t, i)), s[0]);
  }

  lemma LowerRest(t: seq<string>, i: nat)
    requires i < |t|
    ensures LowerAll(Rest(t, i)) == Rest(LowerAll(t), i)
  {
    hide Lower;
  }

  lemma LowerSplits(t: seq<string>, i: nat)
    requires i < |t|
    ensures multiset(LowerAll(t)) == multiset(LowerAll(Rest(t, i))) + multiset{Lower(t[i])}
  {
    hide Lower, LowerAll, Rest;
    LowerRest(t, i);
    Without(LowerAll(t), i);
  }

  /** Lowering both sides of a permutation gives a permutation. */
  lemma {:induction false} LowerKeepsMultiset(s: seq<string>, t: seq<string>)
    requires multiset(s) == multiset(t)
    ensures multiset(LowerAll(s)) == multiset(LowerAll(t))
    decreases |s|
  {
    hide Lower, LowerAll, Rest;
    SameSize(s, t);
    if s == [] {
      assert s == t;
    } else {
      var i :| 0 <= i < |t| && t[i] == s[0];
      WithoutOne(s, t, i);
      LowerKeepsMultiset(s[1..], Rest(t, i));
      LowerSplits(s, 0);
      RestOfHead(s);
      LowerSplits(t, i);
    }
  }

  lemma SortedIsAscending(s: seq<string>, names: seq<string>)
    requires IsSort(s, names) && forall n :: n in names ==> NulFree(n)
    ensures Ascending(LowerAll(s)) && multiset(LowerAll(s)) == multiset(LowerAll(names))
  {
    hide NameOrder, Compare, NulFree;
    LowerKeepsMultiset(s, names);
    forall i, j | 0 <= i < j < |s| ensures Compare(LowerAll(s)[i], LowerAll(s)[j]) <= 0 {
      assert s[i] in multiset(names) && s[j] in multiset(names);
      NameOrderIsCompare(s[i], s[j]);
      CompareAntisymmetric(Lower(s[i]), Lower(s[j]));
    }
  }

  /** Any two sorts of name lists that agree without case agree without case. */
  lemma SortsAgree(s: seq<string>, names: seq<string>, t: seq<string>, others: seq<string>)
    requires IsSort(s, names) && IsSort(t, others)
    requires forall n :: n in names + others ==> NulFree(n)
    requires multiset(LowerAll(names)) == multiset(LowerAll(others))
    ensures LowerAll(s) == LowerAll(t)
  {
    hide IsSort, NulFree, Ascending;
    assert forall n :: n in names ==> n in names + others;
    assert forall n :: n in others ==> n in names + others;
    SortedIsAscending(s, names);
    SortedIsAscending(t, others);
    AscendingIsUnique(LowerAll(s), LowerAll(t));
  }

  // ---- The limit ----

  /** Which names are kept ignores their order exactly while none is left out, or all are the same. */
  lemma KeptIgnoresOrder<T>(names: seq<T>, limit: nat)
    requires limit > 0
    ensures (forall p: seq<T> :: multiset(p) == multiset(names) ==>
               multiset(First(p, limit)) == multiset(First(names, limit)))
            <==> |names| <= limit || forall i, j :: 0 <= i < |names| && 0 <= j < |names| ==> names[i] == names[j]
  {
    forall p: seq<T> | multiset(p) == multiset(names) ensures |p| == |names| {
      assert |multiset(p)| == |p| && |multiset(names)| == |names|;
    }
    if |names| > limit {
      if i, j :| 0 <= i < |names| && 0 <= j < |names| && names[i] != names[j] {
        if i < j {
          SwapMatters(names, limit, i, j);
        } else {
          SwapMatters(names, limit, j, i);
        }
      } else {
        forall p: seq<T> | multiset(p) == multiset(names) ensures First(p, limit) == First(names, limit) {
          AllTheSame(p, names);
        }
      }
    }
  }

  lemma AllTheSame<T>(p: seq<T>, names: seq<T>)
    requires multiset(p) == multiset(names)
    requires forall i, j :: 0 <= i < |names| && 0 <= j < |names| ==> names[i] == names[j]
    ensures p == names
  {
    assert |multiset(p)| == |p| && |multiset(names)| == |names|;
    forall k | 0 <= k < |p| ensures p[k] == names[k] {
      assert p[k] in multiset(names);
    }
  }

  lemma SwapMatters<T>(names: seq<T>, limit: nat, i: nat, j: nat)
    requires 0 < limit < |names| && i < j < |names| && names[i] != names[j]
    ensures exists p: seq<T> ::
              multiset(p) == multiset(names) && multiset(First(p, limit)) != multiset(First(names, limit))
  {
    hide First;
    var x, y := names[i], names[j];
    var rest := names[..i] + names[i + 1..j] + names[j + 1..];
    Around(names, i, j);
    Ends(x, rest, y, limit);
    Ends(y, rest, x, limit);
    Differ(multiset(rest[..limit - 1]), x, y);
    Matters(names, [x] + rest + [y], [y] + rest + [x], limit);
  }

  lemma Differ<T>(m: multiset<T>, x: T, y: T)
    requires x != y
    ensures m + multiset{x} != m + multiset{y} && multiset{x, y} == multiset{y, x}
  {
    assert (m + multiset{x})[x] != (m + multiset{y})[x];
  }

  lemma Matters<T>(names: seq<T>, p: seq<T>, q: seq<T>, limit: nat)
    requires multiset(p) == multiset(names) == multiset(q)
    requires multiset(First(p, limit)) != multiset(First(q, limit))
    ensures exists p: seq<T> ::
              multiset(p) == multiset(names) && multiset(First(p, limit)) != multiset(First(names, limit))
  {
  }

  lemma Around<T>(names: seq<T>, i: nat, j: nat)
    requires i < j < |names|
    ensures multiset(names) == multiset(names[..i] + names[i + 1..j] + names[j + 1..]) + multiset{names[i], names[j]}
  {
    assert names == names[..i] + [names[i]] + names[i + 1..j] + [names[j]] + names[j + 1..];
  }

  lemma Ends<T>(x: T, rest: seq<T>, y: T, limit: nat)
    requires 0 < limit <= |rest| + 1
    ensures multiset([x] + rest + [y]) == multiset(rest) + multiset{x, y}
    ensures multiset(First([x] + rest + [y], limit)) == multiset(rest[..limit - 1]) + multiset{x}
  {
    assert ([x] + rest + [y])[..limit] == [x] + rest[..limit - 1];
  }
}
