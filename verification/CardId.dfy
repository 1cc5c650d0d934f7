/**
  Unique card ids: cleaning a name, and suffixing it until no other card has it
  (linux/sound/core/init.c, with the reserved words of linux/sound/core/info.c).
 */
module CardId {
  import opened Options

  const ID_SIZE := 16
  const NUL := '\0'

  // ---------------------------------------------------------------- characters and words

  predicate Digit(c: char) { '0' <= c <= '9' }

  predicate AsciiLetter(c: char) { 'a' <= c <= 'z' || 'A' <= c <= 'Z' }

  predicate SafeAscii(c: char) { Digit(c) || AsciiLetter(c) }

  /** The kernel's notion of a letter includes those of Latin-1. */
  predicate Letter(c: char) {
    AsciiLetter(c) || (0xC0 as char <= c <= 0xFF as char && c != 0xD7 as char && c != 0xF7 as char)
  }

  const RESERVED: seq<string> :=
    ["version", "meminfo", "memdebug", "detect", "devices", "oss", "cards", "timers", "synth", "pcm", "seq"]

  predicate CardPrefix(s: string) { |s| >= 4 && s[0] == 'c' && s[1] == 'a' && s[2] == 'r' && s[3] == 'd' }

  predicate Allowed(s: string) { s !in RESERVED && !CardPrefix(s) }

  /** The id is neither reserved nor that of another card. */
  predicate Free(s: string, cards: seq<Option<string>>, self: int) {
    Allowed(s) && forall i | 0 <= i < |cards| && i != self :: cards[i] != Some(s)
  }

  // ---------------------------------------------------------------- suffixes

  function HexDigit(d: nat): (c: char)
    requires d < 16
    ensures c != '_' && c != NUL
  {
    if d < 10 then '0' + d as char else 'A' + (d - 10) as char
  }

  function Hex(n: nat): (s: string)
    ensures |s| >= 1 && '_' !in s && NUL !in s
  {
    if n < 16 then [HexDigit(n)] else Hex(n / 16) + [HexDigit(n % 16)]
  }

  lemma {:induction false} HexInjective(m: nat, n: nat)
    requires Hex(m) == Hex(n)
    ensures m == n
  {
    var x, y := Hex(m), Hex(n);
    assert x[|x| - 1] == HexDigit(m % 16) && y[|y| - 1] == HexDigit(n % 16);
    if m >= 16 {
      assert x[..|x| - 1] == Hex(m / 16);
      if n >= 16 {
        assert y[..|y| - 1] == Hex(n / 16);
        HexInjective(m / 16, n / 16);
      }
    }
  }

  ghost function DigitValue(c: char): int {
    if '0' <= c <= '9' then c as int - '0' as int else c as int - 'A' as int + 10
  }

  /** The number that a text of hexadecimal digits stands for. */
  ghost function ReadHex(s: string): int {
    if s == [] then 0 else 16 * ReadHex(s[..|s| - 1]) + DigitValue(s[|s| - 1])
  }

  /** The suffix is the number in hexadecimal, in capitals and without leading zeros. */
  lemma {:induction false} HexIsHex(n: nat)
    ensures ReadHex(Hex(n)) == n && (n > 0 ==> Hex(n)[0] != '0')
    ensures forall c | c in Hex(n) :: '0' <= c <= '9' || 'A' <= c <= 'F'
  {
    if n >= 16 {
      HexIsHex(n / 16);
      assert Hex(n)[..|Hex(n)| - 1] == Hex(n / 16);
    } else {
      assert [HexDigit(n)][..0] == [];
    }
  }

  lemma {:induction false} HexGrows(m: nat, n: nat)
    requires m <= n
    ensures |Hex(m)| <= |Hex(n)|
  {
    if m >= 16 { HexGrows(m / 16, n / 16); }
  }

  lemma HexFits(n: nat)
    requires n <= 0xFFF
    ensures |Hex(n)| <= 3
  {
    HexGrows(n, 0xFFF);
    assert Hex(0xF) == "F" && Hex(0xFF) == "FF" && Hex(0xFFF) == "FFF";
  }

  /** Where the i-th suffix goes: behind the base, or over its end. */
  function Spot(len: nat, i: nat): int {
    var sfx := 1 + |Hex(i)|;
    if len + sfx >= ID_SIZE then ID_SIZE - sfx - 1 else len
  }

  /** A base id: nonempty, short, free of underscores, and not in the way of the proc directories. */
  predicate Base(b: string) { 1 <= |b| < ID_SIZE && '_' !in b && NUL !in b && !CardPrefix(b) }

  /** The i-th candidate for a base. */
  function Candidate(b: string, i: nat): string
    requires Base(b) && i <= 0xFFF
  {
    HexFits(i);
    if i == 0 then b else b[..Spot(|b|, i)] + ['_'] + Hex(i)
  }

  /** A candidate is the base, or as much of it as a suffix leaves room for, and the suffix. */
  lemma CandidateIs(b: string, i: nat)
    requires Base(b) && i <= 0xFFF
    ensures i == 0 ==> Candidate(b, i) == b
    ensures i > 0 ==>
              exists kept: nat ::
                && kept <= |b| && Candidate(b, i) == b[..kept] + "_" + Hex(i)
                && |Candidate(b, i)| < ID_SIZE && (kept == |b| || |Candidate(b, i)| == ID_SIZE - 1)
  {
    HexFits(i);
    if i > 0 { assert Candidate(b, i) == b[..Spot(|b|, i)] + "_" + Hex(i); }
  }

  lemma SpotShrinks(len: nat, i: nat, j: nat)
    requires len < ID_SIZE && i <= j <= 0xFFF
    ensures 0 <= Spot(len, j) <= Spot(len, i) <= len
  {
    HexFits(i);
    HexFits(j);
    HexGrows(i, j);
  }

  /** The next suffix overwrites the last one: what is left in front of it is still the base. */
  lemma NextCandidate(b: string, i: nat)
    requires Base(b) && i < 0xFFF
    ensures 0 <= Spot(|b|, i + 1) <= |Candidate(b, i)| && Spot(|b|, i + 1) + 1 + |Hex(i + 1)| < ID_SIZE
    ensures Candidate(b, i)[..Spot(|b|, i + 1)] + (['_'] + Hex(i + 1)) == Candidate(b, i + 1)
  {
    HexFits(i + 1);
    SpotShrinks(|b|, i, i + 1);
    var spot := Spot(|b|, i + 1);
    assert Candidate(b, i)[..spot] == b[..spot];
  }

  /** A text with one underscore determines what is in front of it and behind it. */
  lemma SplitUnique(p: string, x: string, q: string, y: string)
    requires '_' !in p && '_' !in q && p + ['_'] + x == q + ['_'] + y
    ensures p == q && x == y
  {
    var s, t := p + ['_'] + x, q + ['_'] + y;
    assert s[|p|] == '_' && t[|q|] == '_';
    assert forall k | 0 <= k < |p| :: s[k] == p[k];
    assert forall k | 0 <= k < |q| :: t[k] == q[k];
    assert s[..|p|] == p && t[..|q|] == q && s[|p| + 1..] == x && t[|q| + 1..] == y;
  }

  /** No two candidates are alike, even when the base is cut. */
  lemma CandidatesDiffer(b: string, i: nat, j: nat)
    requires Base(b) && i < j <= 0xFFF
    ensures Candidate(b, i) != Candidate(b, j)
  {
    HexFits(j);
    var q := b[..Spot(|b|, j)];
    assert Candidate(b, j)[|q|] == '_';
    if i > 0 && Candidate(b, i) == Candidate(b, j) {
      HexFits(i);
      SplitUnique(b[..Spot(|b|, i)], Hex(i), q, Hex(j));
      HexInjective(i, j);
    }
  }

  /** A suffix takes an id out of the reserved words' way. */
  lemma SuffixedAllowed(b: string, i: nat)
    requires Base(b) && 1 <= i <= 0xFFF
    ensures Allowed(Candidate(b, i))
  {
    HexFits(i);
    var c, p := Candidate(b, i), Spot(|b|, i);
    assert c[p] == '_';
    assert forall r | r in RESERVED :: '_' !in r;
    assert forall k | 0 <= k < p :: c[k] == b[k];
  }

  // ---------------------------------------------------------------- counting the other cards

  function Others(cards: seq<Option<string>>, self: int): set<string> {
    if cards == [] then {}
    else
      var last := cards[|cards| - 1];
      var rest := Others(cards[..|cards| - 1], self);
      if last.Some? && |cards| - 1 != self then rest + {last.value} else rest
  }

  ghost predicate Taken(cards: seq<Option<string>>, self: int, s: string) {
    exists i :: 0 <= i < |cards| && i != self && cards[i] == Some(s)
  }

  lemma {:induction false} OthersCount(cards: seq<Option<string>>, self: int)
    ensures |Others(cards, self)| <= if 0 <= self < |cards| then |cards| - 1 else |cards|
    ensures forall s: string :: Taken(cards, self, s) ==> s in Others(cards, self)
  {
    if cards != [] {
      var rest := cards[..|cards| - 1];
      OthersCount(rest, self);
      forall s: string | Taken(cards, self, s) ensures s in Others(cards, self) {
        var i :| 0 <= i < |cards| && i != self && cards[i] == Some(s);
        if i < |rest| { assert rest[i] == Some(s); }
      }
    }
  }

  /** More distinct candidates than taken ids: one of them is not taken. */
  lemma {:induction false} Pigeonhole(b: string, n: nat, from: nat, taken: set<string>)
    requires Base(b) && from <= n <= 0xFFF && |taken| < n - from
    ensures exists i :: from <= i < n && Candidate(b, i) !in taken
  {
    var c := Candidate(b, n - 1);
    if c in taken {
      Pigeonhole(b, n - 1, from, taken - {c});
      var i :| from <= i < n - 1 && Candidate(b, i) !in taken - {c};
      CandidatesDiffer(b, i, n - 1);
    }
  }

  /** With at most n - 1 other cards, some of the n candidates of an allowed base is free. */
  lemma SomeCandidateFree(b: string, n: nat, cards: seq<Option<string>>, self: int)
    requires Base(b) && Allowed(b) && 1 <= n <= 0xFFF && 0 <= self < |cards| <= n
    ensures exists i :: 0 <= i < n && Free(Candidate(b, i), cards, self)
  {
    OthersCount(cards, self);
    Pigeonhole(b, n, 0, Others(cards, self));
    var i :| 0 <= i < n && Candidate(b, i) !in Others(cards, self);
    if i > 0 { SuffixedAllowed(b, i); }
    assert !Taken(cards, self, Candidate(b, i));
    assert Free(Candidate(b, i), cards, self);
  }

  // ---------------------------------------------------------------- the id buffer

  /** The buffer holds a NUL-terminated text. */
  ghost predicate Text(id: array<char>, s: string)
    reads id
  {
    id.Length == ID_SIZE && |s| < ID_SIZE && id[..|s|] == s && id[|s|] == NUL && NUL !in s
  }

  method ReadText(id: array<char>, ghost t: string) returns (s: string)
    requires Text(id, t)
    ensures s == t
  {
    var n := 0;
    while id[n] != NUL
      invariant 0 <= n <= |t|
      decreases |t| - n
    {
      n := n + 1;
    }
    assert forall k | 0 <= k < |t| :: id[k] == t[k];
    s := id[..n];
  }

  /** Copies a text and its NUL to a position in the buffer. */
  method StrCpy(id: array<char>, at: nat, s: string, ghost t: string)
    requires Text(id, t) && at <= |t| && at + |s| < ID_SIZE && NUL !in s
    modifies id
    ensures Text(id, t[..at] + s)
  {
    var i := 0;
    while i < |s|
      invariant 0 <= i <= |s|
      invariant id[..at] == t[..at] && id[at..at + i] == s[..i]
    {
      id[at + i] := s[i];
      i := i + 1;
    }
    id[at + |s|] := NUL;
    assert id[..at + |s|] == id[..at] + id[at..at + |s|];
  }

  // ---------------------------------------------------------------- cleaning a name

  /** What remains of a name: its letters and digits. */
  function Safe(s: string): (r: string)
    ensures forall c | c in r :: SafeAscii(c)
  {
    if s == [] then [] else (if SafeAscii(s[0]) then [s[0]] else []) + Safe(s[1..])
  }

  /** An extra first letter for a name that would start with a digit. */
  function Head(src: string, safe: string): (h: string)
    ensures h != [] ==> Letter(h[0]) && |h| == 1
    ensures h == [] ==> safe == [] || !Digit(safe[0])
  {
    if safe != [] && Digit(safe[0]) then [if src != [] && Letter(src[0]) then src[0] else 'D'] else []
  }

  function Cut(s: string): string { if |s| < ID_SIZE then s else s[..ID_SIZE - 1] }

  function Cleaned(src: string, nid: string): string { Cut(Head(src, Safe(nid)) + Safe(nid)) }

  /** A cleaned name is a base, unless it is empty or starts with "card"; it never starts with a digit. */
  lemma CleanedBase(src: string, nid: string)
    ensures Base(Cleaned(src, nid)) <==> Cleaned(src, nid) != [] && !CardPrefix(Cleaned(src, nid))
    ensures |Cleaned(src, nid)| < ID_SIZE && NUL !in Cleaned(src, nid)
    ensures Cleaned(src, nid) != [] ==> !Digit(Cleaned(src, nid)[0])
  {
    var h, safe := Head(src, Safe(nid)), Safe(nid);
    assert forall c | c in h + safe :: SafeAscii(c) || Letter(c);
    assert forall c | c in Cut(h + safe) :: c in h + safe;
  }

  ghost predicate Alphanumeric(c: char) { 'a' <= c <= 'z' || 'A' <= c <= 'Z' || '0' <= c <= '9' }

  /** A short name of letters and digits that starts with a letter is kept as it is. */
  lemma {:induction false} KeptAsIs(src: string, nid: string)
    requires |nid| < ID_SIZE && (forall c | c in nid :: Alphanumeric(c)) && (nid != [] ==> !('0' <= nid[0] <= '9'))
    ensures Cleaned(src, nid) == nid
  {
    SafeOfSafe(nid);
  }

  lemma {:induction false} SafeOfSafe(s: string)
    requires forall c | c in s :: Alphanumeric(c)
    ensures Safe(s) == s
  {
    if s != [] {
      assert s[0] in s;
      SafeOfSafe(s[1..]);
    }
  }

  lemma {:induction false} SafeOfBoth(a: string, b: string)
    ensures Safe(a + b) == Safe(a) + Safe(b)
  {
    if a == [] {
      assert a + b == b;
    } else {
      assert (a + b)[1..] == a[1..] + b;
      SafeOfBoth(a[1..], b);
    }
  }

  lemma SafeOfNone(c: char)
    requires !Alphanumeric(c)
    ensures Safe([c]) == []
  {
  }

  /** Any other character is passed over. */
  lemma PassedOver(src: string, a: string, c: char, b: string)
    requires !Alphanumeric(c)
    ensures Cleaned(src, a + [c] + b) == Cleaned(src, a + b)
  {
    hide Safe, Head, Cut, Alphanumeric;
    SafeOfBoth(a + [c], b);
    SafeOfBoth(a, [c]);
    SafeOfBoth(a, b);
    SafeOfNone(c);
    assert Safe(a + [c]) == Safe(a);
  }

  /** A name that starts with a digit gets a letter in front: the first one of the source name, or D. */
  lemma LetterInFront(src: string, nid: string)
    requires nid != [] && '0' <= nid[0] <= '9' && |nid| < ID_SIZE - 1 && forall c | c in nid :: Alphanumeric(c)
    ensures Cleaned(src, nid) == [if src != [] && Letter(src[0]) then src[0] else 'D'] + nid
  {
    SafeOfSafe(nid);
  }

  /** A longer name is cut. */
  lemma CutShort(src: string, nid: string)
    requires |nid| >= ID_SIZE && (forall c | c in nid :: Alphanumeric(c)) && !('0' <= nid[0] <= '9')
    ensures Cleaned(src, nid) == nid[..ID_SIZE - 1]
  {
    SafeOfSafe(nid);
  }

  /** Copies the valid characters of a name into the id buffer. */
  method CopyValid(id: array<char>, src: string, nid: string)
    requires id.Length == ID_SIZE
    modifies id
    ensures Text(id, Cleaned(src, nid))
  {
    var p, n := 0, 0;
    while p < |nid| && !SafeAscii(nid[p])
      invariant 0 <= p <= |nid| && Safe(nid) == Safe(nid[p..])
    {
      p := p + 1;
    }
    ghost var h := Head(src, Safe(nid));
    if p < |nid| && Digit(nid[p]) {
      id[n] := if src != [] && Letter(src[0]) then src[0] else 'D';
      n := 1;
    }
    assert id[..n] == h;
    n := CopySafe(id, nid, p, n, h + Safe(nid));
    id[n] := NUL;
    CleanedBase(src, nid);
    assert id[..n] == Cleaned(src, nid);
  }

  lemma SafeStep(done: string, nid: string, p: nat)
    requires p < |nid|
    ensures done + Safe(nid[p..]) == (if SafeAscii(nid[p]) then done + [nid[p]] else done) + Safe(nid[p + 1..])
  {
    assert nid[p..][1..] == nid[p + 1..];
  }

  lemma CutAt(done: string, rest: string, ended: bool)
    requires |done| < ID_SIZE && if ended then rest == [] else |done| == ID_SIZE - 1
    ensures Cut(done + rest) == done
  {
  }

  method CopySafe(id: array<char>, nid: string, from: nat, at: nat, ghost all: string) returns (n: nat)
    requires id.Length == ID_SIZE && from <= |nid| && at < ID_SIZE && id[..at] + Safe(nid[from..]) == all
    modifies id
    ensures n < ID_SIZE && id[..n] == Cut(all)
  {
    var p := from;
    n := at;
    ghost var done := id[..at];
    while p < |nid| && n < ID_SIZE - 1
      invariant 0 <= p <= |nid| && 0 <= n <= ID_SIZE - 1
      invariant id[..n] == done && done + Safe(nid[p..]) == all
    {
      SafeStep(done, nid, p);
      if SafeAscii(nid[p]) {
        id[n] := nid[p];
        n := n + 1;
        done := done + [nid[p]];
      }
      p := p + 1;
    }
    assert Cut(all) == done by { CutAt(done, Safe(nid[p..]), p == |nid|); }
  }

  // ---------------------------------------------------------------- setting the id

  const DEFAULT := "Default"

  /** Puts the suffix for the next try at the end of the id. */
  method AddSuffix(id: array<char>, len: nat, loops: nat, ghost b: string)
    requires Base(b) && loops < 0xFFF && Text(id, Candidate(b, loops)) && len == |b|
    modifies id
    ensures Text(id, Candidate(b, loops + 1))
  {
    NextCandidate(b, loops);
    var sfx := ['_'] + Hex(loops + 1);
    var spot := if len + |sfx| >= ID_SIZE then ID_SIZE - |sfx| - 1 else len;
    StrCpy(id, spot, sfx, Candidate(b, loops));
  }

  /** Tries the candidates of the base in the buffer in turn; on failure none was free. */
  method TryCandidates(id: array<char>, cards: seq<Option<string>>, self: int, n: nat, ghost b: string)
    returns (ok: bool, ghost k: nat)
    requires Text(id, b) && Base(b) && 1 <= n <= 0xFFF && |cards| <= n
    modifies id
    ensures k <= n && Text(id, Candidate(b, k)) && forall i | 0 <= i < k :: !Free(Candidate(b, i), cards, self)
    ensures ok ==> k < n && Free(Candidate(b, k), cards, self)
    ensures !ok ==> k == n
  {
    var base := ReadText(id, b);
    var len, loops := |base|, 0;
    while loops < n
      invariant 0 <= loops <= n && Text(id, Candidate(b, loops))
      invariant forall i | 0 <= i < loops :: !Free(Candidate(b, i), cards, self)
    {
      var text := ReadText(id, Candidate(b, loops));
      if Free(text, cards, self) { return true, loops; }
      AddSuffix(id, len, loops, b);
      loops := loops + 1;
    }
    ok, k := false, n;
  }

  /** What it means for an id to be free. */
  lemma FreeIs(s: string, cards: seq<Option<string>>, self: int)
    requires Free(s, cards, self)
    ensures forall i | 0 <= i < |cards| && i != self :: cards[i] != Some(s)
    ensures s !in RESERVED && !("card" <= s)
  {
  }

  /**
    Sets a card's id. It ends up free, so the last resort is never needed: with n candidates per
    base there are at most n - 1 other cards.
   */
  method SetId(id: array<char>, src: string, nid: string, cards: seq<Option<string>>, self: int, n: nat)
    returns (lastResort: bool, ghost b: string, ghost k: nat)
    requires id.Length == ID_SIZE && 1 <= n <= 0xFFF && 0 <= self < |cards| <= n
    modifies id
    ensures !lastResort
    ensures Base(b) && k < n && Text(id, Candidate(b, k)) && Free(Candidate(b, k), cards, self)
    ensures forall i | 0 <= i < |cards| && i != self :: cards[i] != Some(Candidate(b, k))
    ensures Candidate(b, k) !in RESERVED && !("card" <= Candidate(b, k))
    ensures forall i | 0 <= i < k :: !Free(Candidate(b, i), cards, self)
    ensures b == Cleaned(src, nid) || b == DEFAULT
    ensures b != Cleaned(src, nid) ==>
              !Base(Cleaned(src, nid)) || forall i | 0 <= i < n :: !Free(Candidate(Cleaned(src, nid), i), cards, self)
  {
    hide Free, Cleaned, Candidate;
    CopyValid(id, src, nid);
    CleanedBase(src, nid);
    b := Cleaned(src, nid);
    var isDefault := false;
    var text := ReadText(id, b);
    if text == "" || CardPrefix(text) {
      StrCpy(id, 0, DEFAULT, text);
      b, isDefault := DEFAULT, true;
    }
    var ok: bool;
    ok, k := TryCandidates(id, cards, self, n, b);
    if ok {
      FreeIs(Candidate(b, k), cards, self);
      return false, b, k;
    }
    if !isDefault {
      StrCpy(id, 0, DEFAULT, Candidate(b, k));
      b, isDefault := DEFAULT, true;
      ok, k := TryCandidates(id, cards, self, n, b);
      if ok {
        FreeIs(Candidate(b, k), cards, self);
        return false, b, k;
      }
    }
    SomeCandidateFree(DEFAULT, n, cards, self);
    lastResort := true;
  }
}
