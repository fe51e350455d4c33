/** mktemp.c: temporary names, and the odometer that goes through all of them. */
module Mktemp {
  // ----- fillings -----

  /** padchar: 0 to 9, A to Z, a to z. */
  function PadChar(d: nat): char
    requires d < 62
  {
    if d < 10 then '0' + d as char else if d < 36 then 'A' + (d - 10) as char else 'a' + (d - 36) as char
  }

  predicate IsPad(c: char) { '0' <= c <= '9' || 'A' <= c <= 'Z' || 'a' <= c <= 'z' }

  /** strchr in padchar. */
  function PadIndex(c: char): (d: nat)
    requires IsPad(c)
    ensures d < 62
  {
    if '0' <= c <= '9' then (c - '0') as nat
    else if 'A' <= c <= 'Z' then (c - 'A') as nat + 10
    else (c - 'a') as nat + 36
  }

  lemma PadBoth(d: nat, c: char)
    ensures d < 62 ==> IsPad(PadChar(d)) && PadIndex(PadChar(d)) == d
    ensures IsPad(c) ==> PadChar(PadIndex(c)) == c
  {
  }

  /** The table is in the order of the characters, so it is the only one with all of them. */
  lemma PadOrder(d: nat, e: nat)
    requires d < e < 62
    ensures PadChar(d) < PadChar(e)
  {
  }

  /** The characters in the places of the X. */
  predicate Filling(f: string) { forall i :: 0 <= i < |f| ==> IsPad(f[i]) }

  /** The next character, going round. */
  function Turned(c: char): (r: char)
    requires IsPad(c)
    ensures IsPad(r)
  {
    PadBoth((PadIndex(c) + 1) % 62, c);
    PadChar((PadIndex(c) + 1) % 62)
  }

  /** How often `first` must be turned to become `c`. */
  function Turns(c: char, first: char): (n: nat)
    requires IsPad(c) && IsPad(first)
    ensures n < 62
  {
    (PadIndex(c) + 62 - PadIndex(first)) % 62
  }

  lemma RoundNext(a: nat, f: nat)
    requires a < 62 && f < 62
    ensures var n, t := (a + 1) % 62, (a + 62 - f) % 62;
      (n == f <==> t == 61) && (n != f ==> (n + 62 - f) % 62 == t + 1)
  {
  }

  lemma RoundOnce(a: nat, b: nat, f: nat)
    requires a < 62 && b < 62 && f < 62 && (a + 62 - f) % 62 == (b + 62 - f) % 62
    ensures a == b
  {
    assert a + 62 - f < 62 ==> (a + 62 - f) % 62 == a + 62 - f;
    assert b + 62 - f < 62 ==> (b + 62 - f) % 62 == b + 62 - f;
    assert a + 62 - f >= 62 ==> (a + 62 - f) % 62 == a - f;
    assert b + 62 - f >= 62 ==> (b + 62 - f) % 62 == b - f;
  }

  lemma TurnsNext(c: char, first: char)
    requires IsPad(c) && IsPad(first)
    ensures Turned(c) == first <==> Turns(c, first) == 61
    ensures Turned(c) != first ==> Turns(Turned(c), first) == Turns(c, first) + 1
    ensures Turns(first, first) == 0
  {
    hide PadChar, PadIndex, IsPad;
    var a, f := PadIndex(c), PadIndex(first);
    PadBoth((a + 1) % 62, first);
    RoundNext(a, f);
  }

  lemma TurnsOnce(c: char, d: char, first: char)
    requires IsPad(c) && IsPad(d) && IsPad(first) && Turns(c, first) == Turns(d, first)
    ensures c == d
  {
    hide PadChar, PadIndex, IsPad;
    PadBoth(0, c);
    PadBoth(0, d);
    RoundOnce(PadIndex(c), PadIndex(d), PadIndex(first));
  }

  function Pow62(n: nat): (p: nat)
    ensures p > 0
  {
    if n == 0 then 1 else 62 * Pow62(n - 1)
  }

  /** The place of a filling in the order of the odometer that starts at `first`. */
  function Rank(f: string, first: string): nat
    requires |f| == |first| && Filling(f) && Filling(first)
  {
    if |f| == 0 then 0 else Turns(f[0], first[0]) + 62 * Rank(f[1..], first[1..])
  }

  datatype Bumped = Exhausted | To(f: string)

  /** One collision: the first place that has not come round is turned. */
  function Bump(f: string, first: string): Bumped
    requires |f| == |first| && Filling(f) && Filling(first)
  {
    if |f| == 0 then Exhausted
    else
      var c := Turned(f[0]);
      if c != first[0] then To([c] + f[1..])
      else
        match Bump(f[1..], first[1..])
        case Exhausted => Exhausted
        case To(g) => To([c] + g)
  }

  lemma {:induction false} RankBound(f: string, first: string)
    requires |f| == |first| && Filling(f) && Filling(first)
    ensures Rank(f, first) < Pow62(|f|)
  {
    if |f| > 0 { RankBound(f[1..], first[1..]); }
  }

  lemma {:induction false} RankFirst(first: string)
    requires Filling(first)
    ensures Rank(first, first) == 0
  {
    if |first| > 0 {
      RankFirst(first[1..]);
      TurnsNext(first[0], first[0]);
    }
  }

  lemma {:induction false} RankOnce(f: string, g: string, first: string)
    requires |f| == |g| == |first| && Filling(f) && Filling(g) && Filling(first) && Rank(f, first) == Rank(g, first)
    ensures f == g
  {
    hide Turns;
    if |f| > 0 {
      RankOnce(f[1..], g[1..], first[1..]);
      TurnsOnce(f[0], g[0], first[0]);
      assert f == [f[0]] + f[1..] && g == [g[0]] + g[1..];
    }
  }

  /** The odometer counts up by one, and stops at the last number. */
  lemma {:induction false} BumpCounts(f: string, first: string)
    requires |f| == |first| && Filling(f) && Filling(first)
    ensures match Bump(f, first)
      case Exhausted => Rank(f, first) + 1 == Pow62(|f|)
      case To(g) => |g| == |f| && Filling(g) && Rank(g, first) == Rank(f, first) + 1
  {
    hide Turns, Turned;
    if |f| > 0 {
      var c := Turned(f[0]);
      TurnsNext(f[0], first[0]);
      if c != first[0] {
        assert ([c] + f[1..])[1..] == f[1..];
      } else {
        BumpCounts(f[1..], first[1..]);
        var b := Bump(f[1..], first[1..]);
        if b.To? { assert ([c] + b.f)[1..] == b.f; }
      }
    }
  }

  // ----- _gettemp -----

  const MAXPATHLEN: nat := 1024

  /** What the attempt to make the file, the directory or the name comes to. */
  datatype Outcome = Made | Taken | Failed

  datatype Result = Invalid | TooLong | NoDirectory | NotDirectory | OK | Failure | AllTaken

  /** What stat() says of a path. */
  datatype Stat = Absent | Other | Directory

  /** The flags that mkostemps() takes, from sys/fcntl.h. */
  const O_APPEND: bv32 := 0x0008
  const O_SHLOCK: bv32 := 0x0010
  const O_EXLOCK: bv32 := 0x0020
  const O_SYNC: bv32 := 0x0080
  const O_DIRECT: bv32 := 0x0001_0000
  const O_CLOEXEC: bv32 := 0x0010_0000

  predicate GoodFlags(oflags: bv32) {
    oflags & !(O_APPEND | O_DIRECT | O_SHLOCK | O_EXLOCK | O_SYNC | O_CLOEXEC) == 0
  }

  /** A name with the places before and behind the filling as they were. */
  predicate Around(path: string, was: string, start: nat, suffp: nat) {
    start <= suffp <= |was| == |path| && path[..start] == was[..start] && path[suffp..] == was[suffp..]
  }

  /** The characters that were drawn for the places of a filling. */
  function Drawn(random: nat -> nat, start: nat, suffp: nat): (f: string)
    requires start <= suffp && forall k :: random(k) < 62
    ensures |f| == suffp - start && forall i :: 0 <= i < |f| ==> f[i] == PadChar(random(start + i))
  {
    seq(suffp - start, i requires 0 <= i < suffp - start => PadChar(random(start + i)))
  }

  /** The random characters in the places of the X before the suffix. */
  method Fill(path: array<char>, suffp: nat, random: nat -> nat) returns (start: nat)
    requires suffp <= path.Length && forall k :: random(k) < 62
    modifies path
    ensures start <= suffp && Around(path[..], old(path[..]), start, suffp) && Filling(path[start..suffp])
    ensures forall k :: start <= k < suffp ==> old(path[k]) == 'X'
    ensures start > 0 ==> old(path[start - 1]) != 'X'
    ensures path[start..suffp] == Drawn(random, start, suffp)
  {
    hide PadChar, IsPad;
    var trv: int := suffp - 1;
    while trv >= 0 && path[trv] == 'X'
      invariant -1 <= trv < suffp
      invariant forall k :: 0 <= k < path.Length && !(trv < k < suffp) ==> path[k] == old(path[k])
      invariant forall k :: trv < k < suffp ==> IsPad(path[k]) && old(path[k]) == 'X' && path[k] == PadChar(random(k))
    {
      PadBoth(random(trv), 'X');
      path[trv] := PadChar(random(trv));
      trv := trv - 1;
    }
    start := trv + 1;
    assert path[..start] == old(path[..start]) && path[suffp..] == old(path[suffp..]);
    assert path[..][..start] == old(path[..])[..start] && path[..][suffp..] == old(path[..])[suffp..];
  }

  /** What one pass of the odometer leaves: the next filling, or the first one again. */
  ghost predicate Advanced(path: string, was: string, start: nat, suffp: nat, carry: string, more: bool)
    requires start <= suffp <= |was| && |carry| == suffp - start && Filling(was[start..suffp]) && Filling(carry)
  {
    && Around(path, was, start, suffp)
    && match Bump(was[start..suffp], carry)
       case Exhausted => !more && path[start..suffp] == carry
       case To(f) => more && path[start..suffp] == f
  }

  /** The places up to `trv` have come round to the first filling. */
  ghost predicate Carried(path: string, was: string, start: nat, trv: nat, suffp: nat, carry: string)
    requires start <= suffp <= |was| && |carry| == suffp - start && Filling(was[start..suffp]) && Filling(carry)
  {
    && start <= trv <= suffp && path == was[..start] + carry[..trv - start] + was[trv..]
    && Bump(was[start..suffp], carry) ==
       Prefixed(carry[..trv - start], Bump(was[start..suffp][trv - start..], carry[trv - start..]))
  }

  /** The inner loop after a collision, in place. */
  method Advance(path: array<char>, start: nat, suffp: nat, carrybuf: string) returns (more: bool)
    requires start <= suffp <= path.Length && |carrybuf| == suffp - start
    requires Filling(path[start..suffp]) && Filling(carrybuf)
    modifies path
    ensures Advanced(path[..], old(path[..]), start, suffp, carrybuf, more)
  {
    hide Turned, IsPad, Carried, Advanced;
    ghost var was := path[..];
    assert was[start..suffp] == path[start..suffp];
    var trv, carryp := start, 0;
    CarriedStart(was, start, suffp, carrybuf);
    while true
      invariant start <= trv <= suffp && carryp == trv - start && Carried(path[..], was, start, trv, suffp, carrybuf)
      decreases suffp - trv
    {
      if trv == suffp {
        CarriedOut(path[..], was, start, suffp, carrybuf);
        return false;
      }
      ghost var before := path[..];
      PadHere(before, was, start, trv, suffp, carrybuf);
      path[trv] := Turned(path[trv]);
      assert path[..] == before[trv := path[trv]];
      if path[trv] == carrybuf[carryp] {
        CarriedOn(path[..], before, was, start, trv, suffp, carrybuf);
        trv, carryp := trv + 1, carryp + 1;
      } else {
        CarriedTo(path[..], before, was, start, trv, suffp, carrybuf);
        return true;
      }
    }
  }

  lemma CarriedStart(was: string, start: nat, suffp: nat, carry: string)
    requires start <= suffp <= |was| && |carry| == suffp - start && Filling(was[start..suffp]) && Filling(carry)
    ensures Carried(was, was, start, start, suffp, carry)
  {
    hide Bump, IsPad;
    BumpStart(was[start..suffp], carry);
    assert was == was[..start] + carry[..0] + was[start..];
  }

  lemma PadHere(path: string, was: string, start: nat, trv: nat, suffp: nat, carry: string)
    requires start <= suffp <= |was| && |carry| == suffp - start && Filling(was[start..suffp]) && Filling(carry)
    requires Carried(path, was, start, trv, suffp, carry) && trv < suffp
    ensures |path| == |was| && path[trv] == was[start..suffp][trv - start] && IsPad(path[trv])
  {
    hide Bump, IsPad;
  }

  /** All places have come round: there is no name left. */
  lemma CarriedOut(path: string, was: string, start: nat, suffp: nat, carry: string)
    requires start <= suffp <= |was| && |carry| == suffp - start && Filling(was[start..suffp]) && Filling(carry)
    requires Carried(path, was, start, suffp, suffp, carry)
    ensures Advanced(path, was, start, suffp, carry, false)
  {
    hide Bump, IsPad;
    BumpSplit(was[start..suffp], carry, |carry|);
    assert carry[..|carry|] == carry;
  }

  /** One more place has come round. */
  lemma CarriedOn(path: string, before: string, was: string, start: nat, trv: nat, suffp: nat, carry: string)
    requires start <= suffp <= |was| && |carry| == suffp - start && Filling(was[start..suffp]) && Filling(carry)
    requires Carried(before, was, start, trv, suffp, carry) && trv < suffp && |before| == |was| && IsPad(before[trv])
    requires path == before[trv := carry[trv - start]] && Turned(before[trv]) == carry[trv - start]
    ensures Carried(path, was, start, trv + 1, suffp, carry)
  {
    hide Bump, IsPad, Turned, Prefixed;
    PadHere(before, was, start, trv, suffp, carry);
    BumpSplit(was[start..suffp], carry, trv - start);
    assert path == was[..start] + carry[..trv + 1 - start] + was[trv + 1..];
  }

  /** A place that has not come round makes the next name. */
  lemma CarriedTo(path: string, before: string, was: string, start: nat, trv: nat, suffp: nat, carry: string)
    requires start <= suffp <= |was| && |carry| == suffp - start && Filling(was[start..suffp]) && Filling(carry)
    requires Carried(before, was, start, trv, suffp, carry) && trv < suffp && |before| == |was| && IsPad(before[trv])
    requires path == before[trv := Turned(before[trv])] && Turned(before[trv]) != carry[trv - start]
    ensures Advanced(path, was, start, suffp, carry, true)
  {
    hide Bump, IsPad, Turned, Prefixed;
    PadHere(before, was, start, trv, suffp, carry);
    var c := trv - start;
    BumpSplit(was[start..suffp], carry, c);
    assert path[..start] == was[..start] && path[suffp..] == was[suffp..];
    assert path[start..suffp] == carry[..c] + ([path[trv]] + was[start..suffp][c + 1..]);
    assert Bump(was[start..suffp], carry) == To(path[start..suffp]);
  }

  function Prefixed(p: string, b: Bumped): Bumped { if b.To? then To(p + b.f) else b }

  lemma BumpIs(f: string, first: string)
    requires |f| == |first| && Filling(f) && Filling(first)
    ensures Bump(f, first) ==
      if |f| == 0 then Exhausted
      else if Turned(f[0]) != first[0] then To([Turned(f[0])] + f[1..])
      else Prefixed([first[0]], Bump(f[1..], first[1..]))
  {
    hide Turned, IsPad;
  }

  lemma BumpStart(f: string, first: string)
    requires |f| == |first| && Filling(f) && Filling(first)
    ensures Bump(f, first) == Prefixed(first[..0], Bump(f[0..], first[0..]))
  {
    hide Bump, IsPad;
    var b := Bump(f, first);
    assert f[0..] == f && first[0..] == first;
    if b.To? { assert first[..0] + b.f == b.f; }
  }

  lemma BumpSplit(f: string, first: string, k: nat)
    requires |f| == |first| && Filling(f) && Filling(first) && k <= |f|
    ensures k == |f| ==> Prefixed(first[..k], Bump(f[k..], first[k..])) == Exhausted
    ensures k < |f| && Turned(f[k]) != first[k] ==>
      Prefixed(first[..k], Bump(f[k..], first[k..])) == To(first[..k] + ([Turned(f[k])] + f[k + 1..]))
    ensures k < |f| && Turned(f[k]) == first[k] ==>
      Prefixed(first[..k], Bump(f[k..], first[k..])) == Prefixed(first[..k + 1], Bump(f[k + 1..], first[k + 1..]))
  {
    hide Turned, IsPad, Bump;
    BumpIs(f[k..], first[k..]);
    if k < |f| {
      assert f[k..][1..] == f[k + 1..] && first[k..][1..] == first[k + 1..];
      var b := Bump(f[k + 1..], first[k + 1..]);
      if b.To? { assert first[..k] + ([first[k]] + b.f) == first[..k + 1] + b.f; }
    }
  }

  /** The names tried so far: the fillings with rank 0, 1, 2 and so on. */
  ghost predicate InOrder(tried: seq<string>, first: string)
    requires Filling(first)
  {
    forall k :: 0 <= k < |tried| ==> |tried[k]| == |first| && Filling(tried[k]) && Rank(tried[k], first) == k
  }

  ghost predicate Complete(tried: seq<string>, n: nat) { forall f: string :: |f| == n && Filling(f) ==> f in tried }

  /** All fillings are in a list that is in order and complete. */
  lemma AllTried(tried: seq<string>, first: string)
    requires Filling(first) && InOrder(tried, first) && |tried| == Pow62(|first|)
    ensures Complete(tried, |first|)
  {
    hide Rank, Pow62;
    forall f: string | |f| == |first| && Filling(f) ensures f in tried {
      RankBound(f, first);
      RankOnce(f, tried[Rank(f, first)], first);
    }
  }

  lemma NoneTwice(tried: seq<string>, first: string)
    requires Filling(first) && InOrder(tried, first)
    ensures forall i, j :: 0 <= i < j < |tried| ==> tried[i] != tried[j]
  {
  }

  ghost predicate NoRepeats(tried: seq<string>, n: nat) {
    && (forall i, j :: 0 <= i < j < |tried| ==> tried[i] != tried[j])
    && forall i :: 0 <= i < |tried| ==> |tried[i]| == n && Filling(tried[i])
  }

  /** What there is in the place of the directory that the name is in. A name without a
      slash, or with one at its very start only, is not checked. */
  function Parent(path: string, start: nat, stat: string -> Stat): (r: Stat)
    requires start <= |path|
    ensures (forall k :: 1 <= k < start ==> path[k] != '/') ==> r == Directory
    ensures forall k: nat :: 1 <= k < start && LastSlash(path, start, k) ==> r == stat(path[..k])
  {
    if start <= 1 then Directory
    else if path[start - 1] == '/' then stat(path[..start - 1])
    else Parent(path, start - 1, stat)
  }

  predicate LastSlash(path: string, start: nat, k: nat)
    requires start <= |path|
  {
    k < start && path[k] == '/' && forall j :: k < j < start ==> path[j] != '/'
  }

  lemma {:induction false} ParentPrefix(path: string, was: string, start: nat, stat: string -> Stat)
    requires start <= |path| == |was| && path[..start] == was[..start]
    ensures Parent(path, start, stat) == Parent(was, start, stat)
    decreases start
  {
    if start > 1 {
      assert path[start - 1] == path[..start][start - 1] == was[..start][start - 1];
      assert path[..start - 1] == path[..start][..start - 1] == was[..start][..start - 1] == was[..start - 1];
      ParentPrefix(path, was, start - 1, stat);
    }
  }

  /** The check of the directory, which cuts the path off in place and puts the slash back. */
  method CheckDirectory(path: array<char>, start: nat, stat: string -> Stat) returns (r: Stat)
    requires start <= path.Length
    modifies path
    ensures path[..] == old(path[..]) && r == Parent(path[..], start, stat)
  {
    ghost var was := path[..];
    var trv: int := start - 1;
    while trv > 0
      invariant -1 <= trv < start && path[..] == was && trv + 1 <= start
      invariant Parent(was, start, stat) == Parent(was, trv + 1, stat)
    {
      if path[trv] == '/' {
        path[trv] := '\0';
        assert path[..trv] == was[..trv];
        r := stat(path[..trv]);
        path[trv] := '/';
        assert path[..] == was;
        return;
      }
      trv := trv - 1;
    }
    r := Directory;
  }

  /** What the search leaves behind. */
  ghost predicate Searched(r: Result, path: string, was: string, start: nat, suffp: nat, tried: seq<string>,
                           dir: Stat, random: nat -> nat, attempt: nat -> Outcome)
    requires forall k :: random(k) < 62
  {
    && Around(path, was, start, suffp)
    && (forall k :: start <= k < suffp ==> was[k] == 'X') && (start > 0 ==> was[start - 1] != 'X')
    && (r == NoDirectory <==> dir == Absent) && (r == NotDirectory <==> dir == Other)
    && (dir != Directory ==> tried == [] && path[start..suffp] == Drawn(random, start, suffp))
    && (dir == Directory ==> Cycled(r, path[start..suffp], tried, attempt) && tried[0] == Drawn(random, start, suffp))
  }

  /** No name was tried twice. All were taken but the last, which was made if the result is
      OK; or the last one too, if it was the last of all. */
  ghost predicate Cycled(r: Result, f: string, tried: seq<string>, attempt: nat -> Outcome) {
    && |tried| > 0 && NoRepeats(tried, |f|)
    && (forall i :: 0 <= i < |tried| - 1 ==> attempt(i) == Taken)
    && var last := attempt(|tried| - 1);
       || (r == OK && last == Made && f == tried[|tried| - 1])
       || (r == Failure && last == Failed)
       || (r == AllTaken && last == Taken && |tried| == Pow62(|f|) && Complete(tried, |f|))
  }

  method Search(path: array<char>, suffp: nat, random: nat -> nat, checked: bool, stat: string -> Stat,
                attempt: nat -> Outcome)
    returns (r: Result, ghost start: nat, ghost tried: seq<string>)
    requires suffp <= path.Length && forall k :: random(k) < 62
    modifies path
    ensures r != Invalid && r != TooLong && start <= path.Length
    ensures var dir := if checked then Parent(old(path[..]), start, stat) else Directory;
      Searched(r, path[..], old(path[..]), start, suffp, tried, dir, random, attempt)
  {
    hide Parent, NoRepeats, Complete, Pow62, IsPad;
    ghost var was := path[..];
    var from := Fill(path, suffp, random);
    ghost var filled := path[..];
    start, tried := from, [];
    if checked {
      ParentPrefix(path[..], was, from, stat);
      var dir := CheckDirectory(path, from, stat);
      if dir == Absent { return NoDirectory, start, tried; }
      if dir == Other { return NotDirectory, start, tried; }
    }
    r, tried := Cycle(path, from, suffp, attempt);
    AroundTwice(path[..], filled, was, from, suffp);
  }

  /** The attempts, from the filling at hand on. */
  method Cycle(path: array<char>, start: nat, suffp: nat, attempt: nat -> Outcome)
    returns (r: Result, ghost tried: seq<string>)
    requires start <= suffp <= path.Length && Filling(path[start..suffp])
    modifies path
    ensures Around(path[..], old(path[..]), start, suffp) && Cycled(r, path[start..suffp], tried, attempt)
    ensures tried[0] == old(path[start..suffp])
  {
    hide Rank, Pow62, IsPad, Bump, Complete;
    ghost var was := path[..];
    var carrybuf := path[start..suffp];
    tried := [];
    RankFirst(carrybuf);
    var n := 0;
    while true
      invariant Around(path[..], was, start, suffp) && Filling(path[start..suffp])
      invariant n == |tried| && InOrder(tried, carrybuf) && Rank(path[start..suffp], carrybuf) == n
      invariant forall i :: 0 <= i < n ==> attempt(i) == Taken
      invariant if n == 0 then path[start..suffp] == carrybuf else tried[0] == carrybuf
      decreases Pow62(|carrybuf|) - n
    {
      ghost var f := path[start..suffp];
      tried := tried + [f];
      NoneTwice(tried, carrybuf);
      RankBound(f, carrybuf);
      match attempt(n)
      case Made => return OK, tried;
      case Failed => return Failure, tried;
      case Taken =>
        ghost var before := path[..];
        var more := Advance(path, start, suffp, carrybuf);
        AdvancedCounts(path[..], before, start, suffp, carrybuf, more);
        AroundTwice(path[..], before, was, start, suffp);
        if !more {
          AllTried(tried, carrybuf);
          return AllTaken, tried;
        }
        n := n + 1;
    }
  }

  /** The odometer goes to the number after this one, or this was the last. */
  lemma AdvancedCounts(path: string, was: string, start: nat, suffp: nat, carry: string, more: bool)
    requires start <= suffp <= |was| && |carry| == suffp - start && Filling(was[start..suffp]) && Filling(carry)
    requires Advanced(path, was, start, suffp, carry, more)
    ensures Around(path, was, start, suffp) && Filling(path[start..suffp])
    ensures var n := Rank(was[start..suffp], carry);
      if more then Rank(path[start..suffp], carry) == n + 1 else n + 1 == Pow62(|carry|)
  {
    hide Rank, Pow62, IsPad, Bump;
    BumpCounts(was[start..suffp], carry);
  }

  lemma AroundTwice(path: string, before: string, was: string, start: nat, suffp: nat)
    requires Around(path, before, start, suffp) && Around(before, was, start, suffp)
    ensures Around(path, was, start, suffp)
  {
  }

  /** _gettemp: no name is tried twice, and if all are taken, every name was tried. The prefix
      and the suffix are not touched. `stat` is what there is at a path, and `attempt` what
      happens on each try. */
  method GetTemp(path: array<char>, doopen: bool, domkdir: bool, slen: int, oflags: bv32,
                 random: nat -> nat, stat: string -> Stat, attempt: nat -> Outcome)
    returns (r: Result, ghost start: nat, ghost tried: seq<string>)
    requires forall k :: random(k) < 62
    modifies path
    ensures r == Invalid <==>
      || (doopen && domkdir) || slen < 0 || !GoodFlags(oflags)
      || (path.Length < MAXPATHLEN && (slen >= path.Length || '/' in old(path[path.Length - slen..])))
    ensures r == TooLong <==>
      !(doopen && domkdir) && slen >= 0 && GoodFlags(oflags) && path.Length >= MAXPATHLEN
    ensures r == Invalid || r == TooLong ==> path[..] == old(path[..])
    ensures start <= path.Length
    ensures var dir := if doopen || domkdir then Parent(old(path[..]), start, stat) else Directory;
      r != Invalid && r != TooLong ==>
        Searched(r, path[..], old(path[..]), start, path.Length - slen, tried, dir, random, attempt)
  {
    hide Searched, Parent, GoodFlags;
    if (doopen && domkdir) || slen < 0 || !GoodFlags(oflags) { return Invalid, 0, []; }
    if path.Length >= MAXPATHLEN { return TooLong, 0, []; }
    if slen >= path.Length { return Invalid, 0, []; }
    var suffp := path.Length - slen;
    if '/' in path[suffp..] { return Invalid, 0, []; }
    r, start, tried := Search(path, suffp, random, doopen || domkdir, stat, attempt);
  }

  /** If the first attempt succeeds, the name is the one that was drawn. */
  lemma FirstName(r: Result, path: string, was: string, start: nat, suffp: nat, tried: seq<string>, dir: Stat,
                  random: nat -> nat, attempt: nat -> Outcome)
    requires forall k :: random(k) < 62
    requires Searched(r, path, was, start, suffp, tried, dir, random, attempt) && dir == Directory && attempt(0) == Made
    ensures r == OK && path == was[..start] + Drawn(random, start, suffp) + was[suffp..]
  {
    hide Drawn, NoRepeats, Complete, Pow62;
    assert |tried| == 1;
    assert path == path[..start] + path[start..suffp] + path[suffp..];
  }
}
