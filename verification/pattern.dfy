/** The sentinels and the one regular expression the codec uses,
    `\[START\](?P<msg>.+)\[END\]`, written out as an explicit search with the
    meaning Python's `re.search` gives it: the leftmost "[START]" that can be
    followed by one or more characters other than a newline and then "[END]",
    and, `.+` being greedy, the last such "[END]". */
module Pattern {
  import opened Wrappers
  import opened Bits

  const START: seq<Char> := ['[' as int, 'S' as int, 'T' as int, 'A' as int, 'R' as int, 'T' as int, ']' as int]
  const END: seq<Char> := ['[' as int, 'E' as int, 'N' as int, 'D' as int, ']' as int]
  /** The one character `.` does not match. */
  const NEWLINE: Char := '\n' as int

  /** `pat` occurs in `text` at position i. */
  predicate IsAt(text: seq<Char>, pat: seq<Char>, i: nat)
  {
    i + |pat| <= |text| && text[i .. i + |pat|] == pat
  }

  /** The pattern matches `text` with "[START]" at p and "[END]" at k: the
      captured text[p+7..k] is non-empty and holds no newline. */
  predicate Delimits(text: seq<Char>, p: nat, k: nat)
  {
    IsAt(text, START, p) && p + |START| < k && IsAt(text, END, k) && NEWLINE !in text[p + |START| .. k]
  }

  /** (p, k) is the match `re.search` reports: p is the leftmost start of any
      match, and k the last "[END]" that completes a match from p. */
  ghost predicate IsMatch(text: seq<Char>, p: nat, k: nat)
  {
    Delimits(text, p, k)
    && (forall k': nat :: Delimits(text, p, k') ==> k' <= k)
    && (forall q: nat, k': nat :: Delimits(text, q, k') ==> p <= q)
  }

  /** Position of the first newline at or after i, or |text| if there is none. */
  function FirstNewline(text: seq<Char>, i: nat): (e: nat)
    requires i <= |text|
    ensures i <= e <= |text| && NEWLINE !in text[i .. e]
    ensures e < |text| ==> text[e] == NEWLINE
    decreases |text| - i
  {
    if i == |text| || text[i] == NEWLINE then i
    else
      var e := FirstNewline(text, i + 1);
      assert text[i .. e] == [text[i]] + text[i + 1 .. e];
      e
  }

  /** A slice starting at i is newline-free exactly when it stops at or before the first newline. */
  lemma NewlineFreeUpTo(text: seq<Char>, i: nat, k: nat)
    requires i <= k <= |text|
    ensures NEWLINE !in text[i .. k] <==> k <= FirstNewline(text, i)
  {
  }

  /** The largest j in lo..hi at which "[END]" occurs, if any. */
  function LastEndIn(text: seq<Char>, lo: nat, hi: int): (r: Option<nat>)
    ensures r.Some? ==> lo <= r.value <= hi && IsAt(text, END, r.value)
    ensures r.Some? ==> forall j: nat :: r.value < j <= hi ==> !IsAt(text, END, j)
    ensures r.None? ==> forall j: nat :: lo <= j <= hi ==> !IsAt(text, END, j)
    decreases hi - lo
  {
    if hi < lo then None
    else if IsAt(text, END, hi) then Some(hi)
    else LastEndIn(text, lo, hi - 1)
  }

  /** The greedy end of a match starting at p: the last k with Delimits(text, p, k). */
  function GreedyEnd(text: seq<Char>, p: nat): (r: Option<nat>)
    ensures r.Some? ==> Delimits(text, p, r.value)
    ensures r.Some? ==> forall k: nat :: Delimits(text, p, k) ==> k <= r.value
    ensures r.None? ==> forall k: nat :: !Delimits(text, p, k)
  {
    if !IsAt(text, START, p) then None
    else
      var body := p + |START|;
      var e := FirstNewline(text, body);
      var r := LastEndIn(text, body + 1, e);
      assert forall k: nat :: body < k <= |text| ==> (Delimits(text, p, k) <==> k <= e && IsAt(text, END, k)) by {
        forall k | body < k <= |text| ensures Delimits(text, p, k) <==> k <= e && IsAt(text, END, k) {
          NewlineFreeUpTo(text, body, k);
        }
      }
      r
  }

  /** The leftmost p >= from at which a match starts, with its greedy end. */
  function Locate(text: seq<Char>, from: nat): (r: Option<(nat, nat)>)
    ensures r.Some? ==> from <= r.value.0 && Delimits(text, r.value.0, r.value.1)
    ensures r.Some? ==> forall k: nat :: Delimits(text, r.value.0, k) ==> k <= r.value.1
    ensures r.Some? ==> forall q: nat, k: nat :: from <= q < r.value.0 ==> !Delimits(text, q, k)
    ensures r.None? ==> forall q: nat, k: nat :: from <= q ==> !Delimits(text, q, k)
    decreases |text| - from
  {
    if from >= |text| then None
    else
      match GreedyEnd(text, from)
      case Some(k) => Some((from, k))
      case None => Locate(text, from + 1)
  }

  /** `PATTERN.search(text)` followed by `match.group('msg')`, or None when there is no match. */
  function Search(text: seq<Char>): (r: Option<seq<Char>>)
    ensures r.None? <==> forall p: nat, k: nat :: !Delimits(text, p, k)
    ensures r.Some? ==> exists p: nat, k: nat :: IsMatch(text, p, k) && r.value == text[p + |START| .. k]
    ensures forall p: nat, k: nat :: IsMatch(text, p, k) ==> r == Some(text[p + |START| .. k])
    ensures r.Some? ==> |r.value| > 0 && NEWLINE !in r.value
  {
    match Locate(text, 0)
    case None => None
    case Some((p, k)) =>
      assert IsMatch(text, p, k);
      Some(text[p + |START| .. k])
  }
}
