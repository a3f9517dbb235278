/** Path strings: tokenising in place with `strtok_r`, and canonical paths. */
module VfsPath {
  import opened Common

  const SLASH := '/'
  const NUL := '\0'

  // ---------------------------------------------------------------- tokens

  /** Number of leading characters of `s` that are not slashes. */
  function RunLength(s: string): (k: nat)
    ensures k <= |s| && (k < |s| ==> s[k] == SLASH) && forall i :: 0 <= i < k ==> s[i] != SLASH
  {
    if s == [] || s[0] == SLASH then 0 else 1 + RunLength(s[1..])
  }

  /** The maximal runs of `s` without a slash. */
  function Split(s: string): seq<string>
    decreases |s|
  {
    if s == [] then []
    else if s[0] == SLASH then Split(s[1..])
    else [s[..RunLength(s)]] + Split(s[RunLength(s)..])
  }

  /** A path component other than "." and "..". */
  predicate Name(t: string) {
    t != [] && SLASH !in t && t != "." && t != ".."
  }

  predicate Names(ts: seq<string>) {
    forall i :: 0 <= i < |ts| ==> Name(ts[i])
  }

  lemma RunUnique(s: string, k: nat)
    requires k <= |s| && (k < |s| ==> s[k] == SLASH) && forall i :: 0 <= i < k ==> s[i] != SLASH
    ensures RunLength(s) == k
  {}

  lemma {:induction false} SplitSlashed(a: string, b: string)
    ensures Split(a + [SLASH] + b) == Split(a) + Split(b)
    decreases |a|
  {
    var s := a + [SLASH] + b;
    if a == [] {
      assert s == [SLASH] + b && s[1..] == b;
    } else if a[0] == SLASH {
      assert s[1..] == a[1..] + [SLASH] + b;
      SplitSlashed(a[1..], b);
    } else {
      var k := RunLength(a);
      assert s[k] == SLASH;
      RunUnique(s, k);
      assert s[..k] == a[..k] && s[k..] == a[k..] + [SLASH] + b;
      SplitSlashed(a[k..], b);
      Assoc([a[..k]], Split(a[k..]), Split(b));
    }
  }

  lemma SplitOne(t: string)
    requires t != [] && SLASH !in t
    ensures Split(t) == [t]
  {
    RunUnique(t, |t|);
    assert t[..|t|] == t && t[|t|..] == [];
  }

  lemma RunConcat(a: string, b: string)
    ensures RunLength(a + b) == if RunLength(a) < |a| then RunLength(a) else |a| + RunLength(b)
  {
    var k := RunLength(a);
    RunUnique(a + b, if k < |a| then k else k + RunLength(b));
  }

  lemma SplitCount(s: string)
    requires s != [] && s[0] != SLASH
    ensures |Split(s)| == 1 + |Split(s[RunLength(s)..])|
  {}

  lemma DropConcat<T>(a: seq<T>, b: seq<T>, k: nat)
    requires k <= |a| + |b|
    ensures (a + b)[k..] == if k <= |a| then a[k..] + b else b[k - |a|..]
  {}

  /** Without a slash on either side of the border the two components there become one. */
  lemma {:induction false} SplitMerges(a: string, b: string)
    requires a != [] && b != [] && a[|a| - 1] != SLASH && b[0] != SLASH
    ensures |Split(a + b)| == |Split(a)| + |Split(b)| - 1
    decreases |a|
  {
    var s, k := a + b, RunLength(a);
    if a[0] == SLASH {
      DropConcat(a, b, 1);
      SplitMerges(a[1..], b);
    } else {
      RunConcat(a, b);
      DropConcat(a, b, RunLength(s));
      SplitCount(a);
      SplitCount(s);
      if k < |a| {
        SplitMerges(a[k..], b);
      } else {
        SplitCount(b);
        assert a[k..] == [];
      }
    }
  }

  /** The components of a string are those of its two parts exactly when no component spans the border. */
  lemma SplitAtBorder(a: string, b: string)
    ensures Split(a + b) == Split(a) + Split(b) <==> a == [] || b == [] || a[|a| - 1] == SLASH || b[0] == SLASH
  {
    if a == [] {
      assert a + b == b && Split(a) + Split(b) == Split(b);
    } else if b == [] {
      assert a + b == a && Split(a) + Split(b) == Split(a);
    } else if b[0] == SLASH {
      SlashBehind(a, b);
    } else if a[|a| - 1] == SLASH {
      SlashBefore(a, b);
    } else {
      SplitMerges(a, b);
    }
  }

  lemma SlashBehind(a: string, b: string)
    requires b != [] && b[0] == SLASH
    ensures Split(a + b) == Split(a) + Split(b)
  {
    var c := b[1..];
    assert a + b == a + [SLASH] + c;
    SplitSlashed(a, c);
  }

  lemma SlashBefore(a: string, b: string)
    requires a != [] && a[|a| - 1] == SLASH
    ensures Split(a + b) == Split(a) + Split(b)
  {
    var c := a[..|a| - 1];
    assert a + b == c + [SLASH] + b;
    SplitSlashed(c, b);
    SlashLast(a, c);
  }

  lemma SlashLast(a: string, c: string)
    requires a == c + [SLASH]
    ensures Split(a) == Split(c)
  {
    assert a == c + [SLASH] + [];
    SplitSlashed(c, []);
    assert Split(c) + [] == Split(c);
  }

  /** The tokens are the components: each is a run without slashes, and they are all there, in order. */
  lemma {:induction false} SplitRuns(s: string)
    ensures forall i :: 0 <= i < |Split(s)| ==> Split(s)[i] != [] && SLASH !in Split(s)[i]
    decreases |s|
  {
    if s != [] && s[0] == SLASH {
      SplitRuns(s[1..]);
    } else if s != [] {
      SplitRuns(s[RunLength(s)..]);
    }
  }

  // ---------------------------------------------------------------- canonical paths

  /** One component applied to the stack of names above it. */
  function Push(stack: seq<string>, t: string): seq<string> {
    if t == "." then stack
    else if t == ".." then (if stack == [] then [] else stack[..|stack| - 1])
    else stack + [t]
  }

  function Fold(stack: seq<string>, ts: seq<string>): seq<string>
    decreases |ts|
  {
    if ts == [] then stack else Fold(Push(stack, ts[0]), ts[1..])
  }

  /** The names, each behind a slash. */
  function Slashed(ts: seq<string>): string {
    if ts == [] then [] else Slashed(ts[..|ts| - 1]) + [SLASH] + ts[|ts| - 1]
  }

  function Join(ts: seq<string>): string {
    if ts == [] then [SLASH] else Slashed(ts)
  }

  function Canon(s: string): string { Join(Fold([], Split(s))) }

  /** The string that `vfs_mkcanon` works on. */
  function Input(path: string, work: Option<string>): string {
    if work.None? || (path != [] && path[0] == SLASH) then path else work.value + [SLASH] + path
  }

  /** A path in canonical form. */
  ghost predicate Canonical(s: string) {
    exists ts :: Names(ts) && s == Join(ts)
  }

  lemma {:induction false} FoldAppend(stack: seq<string>, a: seq<string>, b: seq<string>)
    ensures Fold(stack, a + b) == Fold(Fold(stack, a), b)
    decreases |a|
  {
    if a == [] {
      assert a + b == b;
    } else {
      assert (a + b)[1..] == a[1..] + b;
      FoldAppend(Push(stack, a[0]), a[1..], b);
    }
  }

  lemma {:induction false} FoldNames(stack: seq<string>, ts: seq<string>)
    requires Names(ts)
    ensures Fold(stack, ts) == stack + ts
    decreases |ts|
  {
    if ts == [] {
      assert stack + ts == stack;
    } else {
      FoldNames(stack + [ts[0]], ts[1..]);
      assert stack + [ts[0]] + ts[1..] == stack + ts;
    }
  }

  lemma {:induction false} FoldGivesNames(stack: seq<string>, ts: seq<string>)
    requires Names(stack) && forall i :: 0 <= i < |ts| ==> ts[i] != [] && SLASH !in ts[i]
    ensures Names(Fold(stack, ts))
    decreases |ts|
  {
    if ts != [] {
      FoldGivesNames(Push(stack, ts[0]), ts[1..]);
    }
  }

  lemma {:induction false} SplitJoin(ts: seq<string>)
    requires Names(ts)
    ensures Split(Join(ts)) == ts
    decreases |ts|
  {
    if ts == [] {
      assert [SLASH][1..] == [];
    } else {
      var n := |ts| - 1;
      SplitSlashed(Slashed(ts[..n]), ts[n]);
      SplitOne(ts[n]);
      if n > 0 {
        SplitJoin(ts[..n]);
        assert Split(Slashed(ts[..n])) == ts[..n];
      } else {
        assert Split(Slashed(ts[..n])) == [] == ts[..n];
      }
      assert ts == ts[..n] + [ts[n]];
    }
  }

  /** The output is always canonical. */
  lemma CanonCanonical(s: string)
    ensures Canonical(Canon(s)) && Names(Fold([], Split(s)))
  {
    SplitRuns(s);
    FoldGivesNames([], Split(s));
  }

  /** A path is left alone exactly when it is canonical, so canonicalising twice changes nothing more. */
  lemma CanonFixes(s: string)
    ensures Canon(s) == s <==> Canonical(s)
    ensures Canon(Canon(s)) == Canon(s)
  {
    CanonCanonical(s);
    if Canonical(s) {
      CanonOfCanonical(s);
    }
    CanonOfCanonical(Canon(s));
  }

  lemma CanonOfCanonical(s: string)
    requires Canonical(s)
    ensures Canon(s) == s
  {
    var ts :| Names(ts) && s == Join(ts);
    SplitJoin(ts);
    FoldNames([], ts);
    assert [] + ts == ts;
  }

  /** Going to `p` and then to a relative `q` is going to `p/q`. */
  lemma CanonComposes(p: string, q: string, work: Option<string>)
    requires p != [] && (q == [] || q[0] != SLASH)
    ensures Canon(Input(q, Some(Canon(Input(p, work))))) == Canon(Input(p + [SLASH] + q, work))
  {
    var x := Input(p, work);
    assert Input(p + [SLASH] + q, work) == x + [SLASH] + q;
    SplitSlashed(x, q);
    FoldAppend([], Split(x), Split(q));
    CanonCanonical(x);
    var ts := Fold([], Split(x));
    SplitSlashed(Canon(x), q);
    SplitJoin(ts);
    FoldAppend([], ts, Split(q));
    FoldNames([], ts);
    assert [] + ts == ts;
  }

  /** An absolute path is canonicalised without regard to the working directory, a relative one below it. */
  lemma CanonAnchored(path: string, w: string)
    ensures path != [] && path[0] == SLASH ==> Canon(Input(path, Some(w))) == Canon(path)
    ensures path == [] || path[0] != SLASH ==>
      Canon(Input(path, Some(w))) == Canon(w + "/" + path) == Join(Fold(Fold([], Split(w)), Split(path)))
  {
    SplitSlashed(w, path);
    FoldAppend([], Split(w), Split(path));
  }

  /** One more component, by what it is: "." stays, ".." goes up and at the root stays, a name goes down. */
  lemma CanonSteps(p: string, t: string)
    ensures Canon([]) == "/"
    ensures Canon(p + "/.") == Canon(p)
    ensures Canon(p + "/..") == Up(Canon(p))
    ensures Name(t) ==> Canon(p + "/" + t) == Down(Canon(p), t)
  {
    CanonDots(p);
    if Name(t) {
      CanonCanonical(p);
      CanonStep(p, t);
      DownAdds(Fold([], Split(p)), t);
    }
  }

  lemma CanonDots(p: string)
    ensures Canon(p + "/.") == Canon(p) && Canon(p + "/..") == Up(Canon(p))
  {
    CanonCanonical(p);
    CanonStep(p, ".");
    CanonStep(p, "..");
    assert p + "/" + "." == p + "/." && p + "/" + ".." == p + "/..";
    UpDrops(Fold([], Split(p)));
  }

  /** The path of `t` in the directory `s`. */
  function Down(s: string, t: string): string { if s == "/" then "/" + t else s + "/" + t }

  lemma DownAdds(ts: seq<string>, t: string)
    requires Names(ts)
    ensures Join(ts + [t]) == Down(Join(ts), t)
  {
    JoinIsRoot(ts);
    var us := ts + [t];
    assert us[..|us| - 1] == ts && us[|us| - 1] == t;
    assert Slashed(us) == Slashed(ts) + "/" + t;
    assert [] + "/" == "/";
  }

  /** A path without what follows its last slash; the root is above itself. */
  function Up(s: string): string {
    if s == [] then "/" else if s[|s| - 1] == SLASH then (if |s| == 1 then "/" else s[..|s| - 1]) else Up(s[..|s| - 1])
  }

  lemma CanonStep(p: string, t: string)
    requires t != [] && SLASH !in t
    ensures Canon(p + "/" + t) == Join(Push(Fold([], Split(p)), t))
  {
    var ts := Fold([], Split(p));
    SplitSlashed(p, t);
    SplitOne(t);
    FoldAppend([], Split(p), [t]);
    assert [t][1..] == [];
    assert Fold(ts, [t]) == Fold(Push(ts, t), []);
  }

  lemma JoinIsRoot(ts: seq<string>)
    requires Names(ts)
    ensures Join(ts) == "/" <==> ts == []
  {
    if ts != [] {
      assert Name(ts[|ts| - 1]);
      assert |Slashed(ts)| > 1;
    }
  }

  /** The last name goes. */
  lemma UpDrops(ts: seq<string>)
    requires Names(ts)
    ensures Up(Join(ts)) == Join(if ts == [] then [] else ts[..|ts| - 1])
  {
    if ts != [] {
      var n := |ts| - 1;
      assert Name(ts[n]);
      UpOver(Slashed(ts[..n]), ts[n]);
      if n > 0 {
        JoinIsRoot(ts[..n]);
        assert ts[..n] != [];
      }
    }
  }

  lemma {:induction false} UpOver(s: string, t: string)
    requires SLASH !in t
    ensures Up(s + [SLASH] + t) == if s == [] then "/" else s
    decreases |t|
  {
    var r := s + [SLASH] + t;
    if t == [] {
      assert r[..|r| - 1] == s;
    } else {
      var t' := t[..|t| - 1];
      assert r[..|r| - 1] == s + [SLASH] + t';
      UpOver(s, t');
    }
  }

  /** Going down and up again is staying; above the root is the root; above a canonical path are all its names but the
      last. */
  lemma CanonUp(p: string, t: string, ts: seq<string>)
    requires Name(t) && Names(ts)
    ensures Canon(p + "/" + t + "/..") == Canon(p)
    ensures Canon("/..") == "/"
    ensures ts != [] ==> Canon(Join(ts) + "/..") == Join(ts[..|ts| - 1])
  {
    CanonSteps(p + "/" + t, t);
    CanonSteps(p, t);
    var us := Fold([], Split(p));
    CanonCanonical(p);
    CanonStep(p, t);
    UpDrops(us + [t]);
    assert (us + [t])[..|us|] == us;
    CanonSteps([], t);
    assert [] + "/.." == "/..";
    CanonSteps(Join(ts), t);
    CanonFixes(Join(ts));
    UpDrops(ts);
  }

  // ---------------------------------------------------------------- strtok_r in place

  /** A C string of `n` characters from index `p` of a buffer. */
  ghost predicate CString(b: seq<char>, p: int, n: int) {
    0 <= p <= n < |b| && b[n] == NUL && forall i :: p <= i < n ==> b[i] != NUL
  }

  /** `t` is at index `k` of the buffer, terminated. */
  ghost predicate TokenAt(b: seq<char>, k: int, t: string) {
    0 <= k && k + |t| < |b| && b[k..k + |t|] == t && b[k + |t|] == NUL && NUL !in t
  }

  /** `strspn` with the delimiter "/", as an index. */
  method Strspn(a: array<char>, p: nat, ghost n: nat) returns (s: nat)
    requires CString(a[..], p, n)
    ensures p <= s <= n && (s < n ==> a[s] != SLASH) && Split(a[..][p..n]) == Split(a[..][s..n])
  {
    s := p;
    while a[s] != NUL && a[s] == SLASH
      invariant p <= s <= n && Split(a[..][p..n]) == Split(a[..][s..n])
      decreases n - s
    {
      assert a[..][s..n][1..] == a[..][s + 1..n];
      s := s + 1;
    }
  }

  /** `strcspn` with the delimiter "/", as an index. */
  method Strcspn(a: array<char>, s: nat, ghost n: nat) returns (e: nat)
    requires CString(a[..], s, n)
    ensures s <= e <= n && e == s + RunLength(a[..][s..n]) && (e < n ==> a[e] == SLASH)
  {
    e := s;
    while a[e] != NUL && a[e] != SLASH
      invariant s <= e <= n && forall i :: s <= i < e ==> a[i] != SLASH
      decreases n - e
    {
      e := e + 1;
    }
    RunUnique(a[..][s..n], e - s);
  }

  /** From buffer `b` to `c`: token `t` at index `k` is the first component of what was left, the rest begins at
      `save`. */
  ghost predicate NextToken(b: seq<char>, c: seq<char>, p: int, n: int, k: int, save: int, t: string) {
    && CString(b, p, n) && CString(c, save, n) && TokenAt(c, k, t)
    && t != [] && Split(b[p..n]) == [t] + Split(c[save..n])
    && p <= k && (k + |t| < save || save == n) && p < save && c[..p] == b[..p]
  }

  lemma TokenFound(b: seq<char>, p: nat, n: nat, s: nat, e: nat)
    requires CString(b, p, n) && p <= s < e <= n && (e < n ==> b[e] == SLASH)
      && Split(b[p..n]) == [b[s..e]] + Split(b[e..n])
    ensures NextToken(b, b[e := NUL], p, n, s, if e < n then e + 1 else e, b[s..e])
  {
    Terminated(b, n, e);
    TokenPut(b, s, e);
  }

  /** What is left at `s` begins with a component. */
  lemma SplitFirst(b: seq<char>, s: nat, n: nat)
    requires s < n <= |b| && b[s] != SLASH
    ensures var e := s + RunLength(b[s..n]);
      s < e <= n && (e < n ==> b[e] == SLASH) && Split(b[s..n]) == [b[s..e]] + Split(b[e..n])
  {
    var r := b[s..n];
    var k := RunLength(r);
    assert r[0] == b[s];
    assert r[..k] == b[s..s + k] && r[k..] == b[s + k..n];
    assert k < |r| ==> r[k] == b[s + k];
  }

  lemma TokenPut(b: seq<char>, s: nat, e: nat)
    requires s <= e < |b| && forall i :: s <= i < e ==> b[i] != NUL
    ensures TokenAt(b[e := NUL], s, b[s..e])
  {
    assert b[e := NUL][s..e] == b[s..e];
  }

  lemma Terminated(b: seq<char>, n: nat, e: nat)
    requires CString(b, e, n) && (e < n ==> b[e] == SLASH)
    ensures var save := if e < n then e + 1 else e;
      CString(b[e := NUL], save, n) && Split(b[e..n]) == Split(b[e := NUL][save..n])
  {
    var c := b[e := NUL];
    if e < n {
      assert b[e..n][1..] == b[e + 1..n] == c[e + 1..n];
    } else {
      assert c == b;
    }
  }

  /** `strtok_r` with the delimiter "/": the next component, terminated in place. */
  method Strtok(a: array<char>, p: nat, ghost n: nat) returns (token: Option<nat>, save: nat, ghost t: string)
    requires CString(a[..], p, n)
    modifies a
    ensures token.None? ==> Split(old(a[..])[p..n]) == [] && a[..] == old(a[..]) && CString(a[..], save, n) && save == n
    ensures token.Some? ==> NextToken(old(a[..]), a[..], p, n, token.value, save, t)
  {
    t := [];
    if a[p] == NUL { return None, p, t; }
    var s := Strspn(a, p, n);
    if a[s] == NUL { return None, s, t; }
    var e := Strcspn(a, s, n);
    TokenNext(a[..], p, n, s, e);
    t := a[..][s..e];
    token := Some(s);
    save := Terminate(a, e, n);
  }

  /** The token is ended where its run ends; the rest starts behind, unless this was the end. */
  method Terminate(a: array<char>, e: nat, ghost n: nat) returns (save: nat)
    requires CString(a[..], e, n)
    modifies a
    ensures a[..] == old(a[..])[e := NUL] && save == if e < n then e + 1 else e
  {
    save := e;
    if a[e] != NUL {
      a[e] := NUL;
      save := e + 1;
    }
  }

  lemma TokenNext(b: seq<char>, p: nat, n: nat, s: nat, e: nat)
    requires CString(b, p, n) && p <= s < n && b[s] != SLASH && Split(b[p..n]) == Split(b[s..n])
    requires e == s + RunLength(b[s..n])
    ensures s < e <= n && (e < n ==> b[e] == SLASH)
      && NextToken(b, b[e := NUL], p, n, s, if e < n then e + 1 else e, b[s..e])
  {
    SplitFirst(b, s, n);
    TokenFound(b, p, n, s, e);
  }

  // ---------------------------------------------------------------- vfs_mkcanon

  /** `strcmp` of the token at `k` with a literal. */
  method TokenIs(a: array<char>, k: nat, lit: string, ghost t: string) returns (same: bool)
    requires TokenAt(a[..], k, t) && NUL !in lit
    ensures same == (t == lit)
  {
    var s := TokenText(a, k, t);
    same := s == lit;
  }

  /** The C string at `k`. */
  method TokenText(a: array<char>, k: nat, ghost t: string) returns (s: string)
    requires TokenAt(a[..], k, t)
    ensures s == t
  {
    var i := k;
    s := [];
    while a[i] != NUL
      invariant k <= i <= k + |t| && s == t[..i - k]
      decreases k + |t| - i
    {
      assert i < k + |t| ==> t[i - k] == a[..][k..k + |t|][i - k];
      s := s + [a[i]];
      i := i + 1;
    }
    assert t[..|t|] == t;
  }

  /** The list of tokens points at the names of the stack; all of them end before the saved position, or all is done. */
  ghost predicate Holds(b: seq<char>, tokens: seq<nat>, stack: seq<string>, save: int, n: int) {
    |tokens| == |stack| && forall i :: 0 <= i < |tokens| ==> HoldsAt(b, tokens[i], stack[i], save, n)
  }

  ghost predicate HoldsAt(b: seq<char>, k: nat, t: string, save: int, n: int) {
    TokenAt(b, k, t) && (k + |t| < save || save == n)
  }

  /** Terminating the next token leaves the earlier ones alone. */
  lemma HoldsNext(b: seq<char>, c: seq<char>, tokens: seq<nat>, stack: seq<string>, p: int, n: int, k: int, save: int,
    t: string)
    requires Holds(b, tokens, stack, p, n) && NextToken(b, c, p, n, k, save, t)
    ensures Holds(c, tokens, stack, save, n)
  {
    forall i | 0 <= i < |tokens| ensures HoldsAt(c, tokens[i], stack[i], save, n) {
      var e := tokens[i] + |stack[i]|;
      assert HoldsAt(b, tokens[i], stack[i], p, n);
      assert p < n;
      assert c[..p][tokens[i]..e] == b[..p][tokens[i]..e];
      assert c[..p][e] == b[..p][e];
    }
  }

  /** The `while` loop of `vfs_mkcanon`: the tokens that remain on the list. */
  method Tokens(a: array<char>, ghost n: nat) returns (tokens: seq<nat>, ghost stack: seq<string>)
    requires CString(a[..], 0, n)
    modifies a
    ensures stack == Fold([], Split(old(a[..])[..n])) && Holds(a[..], tokens, stack, n, n)
  {
    ghost var all := Fold([], Split(a[..][..n]));
    ghost var t;
    var token, save;
    tokens, stack := [], [];
    ghost var b := a[..];
    assert b[0..n] == b[..n];
    token, save, t := Strtok(a, 0, n);
    while token.Some?
      invariant token.Some? ==> TokenAt(a[..], token.value, t) && t != [] && (token.value + |t| < save || save == n)
      invariant CString(a[..], save, n) && Holds(a[..], tokens, stack, save, n)
      invariant all == if token.Some? then Fold(Push(stack, t), Split(a[..][save..n])) else stack
      invariant token.None? ==> save == n
      decreases token.Some?, n - save
    {
      tokens, stack := PushToken(a, token.value, tokens, t, stack, save, n);
      b := a[..];
      ghost var p, t0 := save, t;
      token, save, t := Strtok(a, save, n);
      if token.Some? {
        HoldsNext(b, a[..], tokens, stack, p, n, token.value, save, t);
        assert ([t] + Split(a[..][save..n]))[1..] == Split(a[..][save..n]);
      }
    }
  }

  /** What one token does to the list. */
  method PushToken(a: array<char>, k: nat, tokens: seq<nat>, ghost t: string, ghost stack: seq<string>,
    ghost save: nat, ghost n: nat)
    returns (tokens': seq<nat>, ghost stack': seq<string>)
    requires TokenAt(a[..], k, t) && t != [] && (k + |t| < save || save == n) && Holds(a[..], tokens, stack, save, n)
    ensures stack' == Push(stack, t) && Holds(a[..], tokens', stack', save, n)
  {
    tokens', stack' := tokens, Push(stack, t);
    var dot := TokenIs(a, k, ".", t);
    if !dot {
      var dotdot := TokenIs(a, k, "..", t);
      if dotdot {
        if |tokens| != 0 {
          tokens' := tokens[..|tokens| - 1];
        }
      } else {
        tokens' := tokens + [k];
      }
    }
  }

  /** `vfs_mkcanon`: the canonical form of `path`, seen from `work` unless `path` is absolute. */
  method MkCanon(path: string, work: Option<string>) returns (out: string)
    requires NUL !in Input(path, work) && |Input(path, work)| < 256
    ensures out == Canon(Input(path, work)) && Canonical(out)
  {
    var input := Input(path, work);
    var tmp := new char[256];
    Strcpy(tmp, input);
    assert tmp[..][..|input|] == input;
    var tokens, stack := Tokens(tmp, |input|);
    out := JoinTokens(tmp, tokens, stack, |input|);
    CanonCanonical(input);
  }

  method Strcpy(a: array<char>, s: string)
    requires |s| < a.Length && NUL !in s
    modifies a
    ensures a[..|s|] == s && CString(a[..], 0, |s|)
  {
    var i := 0;
    while i < |s|
      invariant 0 <= i <= |s| && a[..i] == s[..i]
    {
      a[i] := s[i];
      i := i + 1;
    }
    a[i] := NUL;
    assert a[..i] == s;
    forall j | 0 <= j < |s| ensures a[j] != NUL {
      assert a[..i][j] == s[j];
    }
  }

  /** The names behind slashes, one after the other; a lone slash when there are none. */
  method JoinTokens(a: array<char>, tokens: seq<nat>, ghost stack: seq<string>, ghost n: nat) returns (out: string)
    requires Holds(a[..], tokens, stack, n, n)
    ensures out == Join(stack)
  {
    out := "";
    if |tokens| == 0 { out := [SLASH]; }
    var i := 0;
    while i < |tokens|
      invariant 0 <= i <= |tokens| && (|tokens| > 0 ==> out == Slashed(stack[..i]))
        && (|tokens| == 0 ==> out == [SLASH])
    {
      assert HoldsAt(a[..], tokens[i], stack[i], n, n);
      var t := TokenText(a, tokens[i], stack[i]);
      out := out + [SLASH];
      out := out + t;
      assert stack[..i + 1][..i] == stack[..i];
      i := i + 1;
    }
    assert stack[..i] == stack;
  }
}
