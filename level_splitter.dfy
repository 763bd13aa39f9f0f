/**
 * The offline pass of src/procesar_data.py: split the proficiency level out of
 * each row's `Detalles` with the pattern `(\d+-)?(Intermediate|Beginner|Advanced)`,
 * then tidy the remaining text.
 */
module LevelSplitter {

  import opened Wrappers
  import opened Text

  /* ---------------------------------------------------------------------------
   * The pattern
   * ------------------------------------------------------------------------- */

  const Intermediate: string := "Intermediate"
  const Beginner: string := "Beginner"
  const Advanced: string := "Advanced"

  /** The `fillna` value of a row whose text holds no level. */
  const Unspecified: string := "Unspecified"

  /**
   * `\d` on a `str` pattern: a decimal digit of any script, that is a
   * character of Unicode general category Nd (Unicode 15.0 and 15.1: 680
   * characters), the table of Python 3.12 and 3.13.
   * Every script's digits are ten consecutive code points, zero to nine; the
   * ASCII block comes first and every other block starts at or above U+0660.
   */
  predicate IsDigit(c: char)
  {
    ('0' <= c <= '9') || (c as int >= 0x660 && OtherDigitFrom(c as int, 0))
  }

  /** The code points of the digit zero of every script but ASCII, in increasing order. */
  const OtherDigitZeros: seq<int> :=
    [
      0x660, 0x6F0, 0x7C0, 0x966, 0x9E6, 0xA66, 0xAE6, 0xB66,
      0xBE6, 0xC66, 0xCE6, 0xD66, 0xDE6, 0xE50, 0xED0, 0xF20,
      0x1040, 0x1090, 0x17E0, 0x1810, 0x1946, 0x19D0, 0x1A80, 0x1A90,
      0x1B50, 0x1BB0, 0x1C40, 0x1C50, 0xA620, 0xA8D0, 0xA900, 0xA9D0,
      0xA9F0, 0xAA50, 0xABF0, 0xFF10, 0x104A0, 0x10D30, 0x11066, 0x110F0,
      0x11136, 0x111D0, 0x112F0, 0x11450, 0x114D0, 0x11650, 0x116C0, 0x11730,
      0x118E0, 0x11950, 0x11C50, 0x11D50, 0x11DA0, 0x11F50, 0x16A60, 0x16AC0,
      0x16B50, 0x1D7CE, 0x1D7D8, 0x1D7E2, 0x1D7EC, 0x1D7F6, 0x1E140, 0x1E2F0,
      0x1E4F0, 0x1E950, 0x1FBF0
    ]

  /** `n` is one of the ten code points from one of the zeros at index `i` or later. */
  predicate OtherDigitFrom(n: int, i: nat)
    requires i <= |OtherDigitZeros|
    decreases |OtherDigitZeros| - i
  {
    i < |OtherDigitZeros| && (OtherDigitZeros[i] <= n < OtherDigitZeros[i] + 10 || OtherDigitFrom(n, i + 1))
  }

  ghost predicate AllDigits(s: string)
  {
    forall i | 0 <= i < |s| :: IsDigit(s[i])
  }

  /** One of the three alternatives of the second group. */
  predicate IsLabel(w: string)
  {
    w == Intermediate || w == Beginner || w == Advanced
  }

  /** Some alternative of the second group begins `t`. */
  predicate StartsLabel(t: string)
  {
    Intermediate <= t || Beginner <= t || Advanced <= t
  }

  /**
   * The strings the whole pattern matches: a bare label, or one or more
   * digits, a hyphen and a label. Nothing else ("Level-" or "Nivel-") is part
   * of a match.
   */
  ghost predicate InPattern(w: string)
  {
    || IsLabel(w)
    || exists k | 0 < k < |w| :: AllDigits(w[..k]) && w[k] == '-' && IsLabel(w[k + 1..])
  }

  /** The alternation `Intermediate|Beginner|Advanced` tried at the start of `t`, in that order. */
  function LabelAt(t: string): (r: Option<string>)
    ensures r.Some? <==> StartsLabel(t)
    ensures r.Some? ==> IsLabel(r.value) && r.value <= t
  {
    if Intermediate <= t then Some(Intermediate)
    else if Beginner <= t then Some(Beginner)
    else if Advanced <= t then Some(Advanced)
    else None
  }

  /** At most one label begins any text: the three differ in their first letter. */
  lemma {:induction false} LabelAtUnique(t: string, w: string)
    requires IsLabel(w) && w <= t
    ensures LabelAt(t) == Some(w)
  {
    assert t[0] == w[0];
    assert Intermediate <= t ==> t[0] == 'I';
    assert Beginner <= t ==> t[0] == 'B';
  }

  /** A label starts with a letter, never with a digit or a hyphen. */
  lemma {:induction false} LabelInitial(w: string)
    requires IsLabel(w)
    ensures w != [] && !IsDigit(w[0]) && w[0] != '-'
    ensures w[0] == 'I' || w[0] == 'B' || w[0] == 'A'
  {
  }

  /** The greedy `\d+`: the length of the run of digits that begins `t`. */
  function DigitRun(t: string): (k: nat)
    ensures k <= |t|
    ensures k == |t| || !IsDigit(t[k])
  {
    if t != [] && IsDigit(t[0]) then 1 + DigitRun(t[1..]) else 0
  }

  lemma {:induction false} DigitRunIsDigits(t: string)
    ensures AllDigits(t[..DigitRun(t)])
  {
    if t != [] && IsDigit(t[0]) {
      DigitRunIsDigits(t[1..]);
      assert t[..DigitRun(t)] == [t[0]] + t[1..][..DigitRun(t[1..])];
    }
  }

  /** A run of digits followed by a non-digit is the whole greedy run. */
  lemma {:induction false} DigitRunUnique(t: string, k: nat)
    requires k < |t| && AllDigits(t[..k]) && !IsDigit(t[k])
    ensures DigitRun(t) == k
  {
    if k > 0 {
      assert IsDigit(t[..k][0]);
      assert t[1..][..k - 1] == t[1..k];
      DigitRunUnique(t[1..], k - 1);
    }
  }

  /** A match found at the start of a text: its length and the label it captured. */
  datatype Hit = Hit(len: nat, level: string)

  /**
   * The pattern tried at the start of `t`, as the backtracking matcher runs
   * it: the optional group first, with the greedy digit run, which a hyphen
   * must follow (giving digits back cannot help, since a digit is not a
   * hyphen); failing that, a bare label.
   */
  function MatchHere(t: string): (r: Option<Hit>)
    ensures r.Some? ==> 0 < r.value.len <= |t| && IsLabel(r.value.level)
  {
    var k := DigitRun(t);
    if 0 < k < |t| && t[k] == '-' && LabelAt(t[k + 1..]).Some? then
      var level := LabelAt(t[k + 1..]).value;
      Some(Hit(k + 1 + |level|, level))
    else
      match LabelAt(t)
      case Some(level) => Some(Hit(|level|, level))
      case None => None
  }

  /**
   * The matcher agrees with the pattern's language: it finds a match exactly
   * when some prefix of `t` is in the language, that prefix is unique and is
   * the one it returns, and the captured label is the match's last part.
   */
  lemma {:induction false} MatchHereIsPattern(t: string)
    ensures MatchHere(t).Some? ==> InPattern(t[..MatchHere(t).value.len])
    ensures MatchHere(t).Some? ==>
      var h := MatchHere(t).value;
      h.level == t[h.len - |h.level|..h.len]
    ensures forall n | 0 <= n <= |t| && InPattern(t[..n]) ::
      MatchHere(t).Some? && MatchHere(t).value.len == n
  {
    if MatchHere(t).Some? {
      MatchShape(t);
    }
    forall n | 0 <= n <= |t| && InPattern(t[..n])
      ensures MatchHere(t).Some? && MatchHere(t).value.len == n
    {
      PatternPrefixMatches(t, n);
    }
  }

  /** What the matcher returns is in the pattern's language and ends with the captured label. */
  lemma {:induction false} MatchShape(t: string)
    requires MatchHere(t).Some?
    ensures InPattern(t[..MatchHere(t).value.len])
    ensures
      var h := MatchHere(t).value;
      h.level == t[h.len - |h.level|..h.len]
  {
    var k := DigitRun(t);
    var h := MatchHere(t).value;
    var w := t[..h.len];
    if 0 < k < |t| && t[k] == '-' && LabelAt(t[k + 1..]).Some? {
      DigitRunIsDigits(t);
      assert h.len == k + 1 + |h.level|;
      assert t[k + 1..][..|h.level|] == h.level;
      assert t[k + 1..h.len] == h.level;
      assert w[..k] == t[..k] && w[k] == '-' && w[k + 1..] == h.level;
      assert AllDigits(w[..k]) && IsLabel(w[k + 1..]);
    } else {
      assert h.len == |h.level|;
      assert w == h.level;
    }
  }

  /** A prefix in the pattern's language is the match the matcher returns. */
  lemma {:induction false} PatternPrefixMatches(t: string, n: nat)
    requires n <= |t| && InPattern(t[..n])
    ensures MatchHere(t).Some? && MatchHere(t).value.len == n
  {
    var w := t[..n];
    if IsLabel(w) {
      LabelAtUnique(t, w);
      LabelStartMatches(t);
    } else {
      var k :| 0 < k < |w| && AllDigits(w[..k]) && w[k] == '-' && IsLabel(w[k + 1..]);
      assert w[..k] == t[..k] && w[k + 1..] == t[k + 1..n];
      NumberedLabelMatches(t, n, k);
    }
  }

  lemma {:induction false} NumberedLabelMatches(t: string, n: nat, k: nat)
    requires 0 < k < n <= |t|
    requires AllDigits(t[..k]) && t[k] == '-' && IsLabel(t[k + 1..n])
    ensures MatchHere(t).Some? && MatchHere(t).value.len == n
  {
    DigitRunUnique(t, k);
    var w := t[k + 1..n];
    assert w <= t[k + 1..];
    LabelAtUnique(t[k + 1..], w);
  }

  /** A label at the start of a text is the one letter-initial alternative there: no digit run precedes it. */
  lemma {:induction false} LabelStartMatches(t: string)
    requires StartsLabel(t)
    ensures MatchHere(t) == Some(Hit(|LabelAt(t).value|, LabelAt(t).value))
  {
    var w := LabelAt(t).value;
    LabelInitial(w);
    assert t[0] == w[0];
  }

  /** A text starting with a label begins with one of the labels' first letters. */
  lemma {:induction false} StartsLabelInitial(t: string)
    requires StartsLabel(t)
    ensures t != [] && (t[0] == 'I' || t[0] == 'B' || t[0] == 'A')
  {
    var w := LabelAt(t).value;
    LabelInitial(w);
    assert t[0] == w[0];
  }

  /** Before the captured label, a match holds only digits and the hyphen. */
  lemma {:induction false} PrefixBeforeLabel(t: string, i: nat)
    requires MatchHere(t).Some?
    requires i < MatchHere(t).value.len - |MatchHere(t).value.level|
    ensures IsDigit(t[i]) || t[i] == '-'
  {
    var k := DigitRun(t);
    DigitRunIsDigits(t);
    if i < k {
      assert t[..k][i] == t[i];
    }
  }

  /** Inside a match no label starts before the captured one, which sits at the match's end. */
  lemma {:induction false} MatchedLabelIsFirst(t: string)
    requires MatchHere(t).Some?
    ensures
      var h := MatchHere(t).value;
      && h.level <= t[h.len - |h.level|..]
      && forall i | 0 <= i < h.len - |h.level| :: !StartsLabel(t[i..])
  {
    var h := MatchHere(t).value;
    MatchHereIsPattern(t);
    assert t[h.len - |h.level|..][..|h.level|] == t[h.len - |h.level|..h.len];
    forall i | 0 <= i < h.len - |h.level| ensures !StartsLabel(t[i..]) {
      PrefixBeforeLabel(t, i);
      if StartsLabel(t[i..]) {
        StartsLabelInitial(t[i..]);
        LabelInitial(h.level);
      }
    }
  }

  /* ---------------------------------------------------------------------------
   * Search: the leftmost match, as `str.extract` takes it
   * ------------------------------------------------------------------------- */

  /**
   * The pattern tried at every position of `s`, the end included. The engine
   * tries it lazily, position by position; the outcome at each position does
   * not depend on the others, so searching and substituting over this table
   * give what the engine gives.
   */
  function MatchTable(s: string): (ms: seq<Option<Hit>>)
    ensures |ms| == |s| + 1 && Fits(s, ms)
    ensures forall q | 0 <= q <= |s| :: ms[q] == MatchHere(s[q..])
  {
    seq(|s| + 1, q requires 0 <= q <= |s| => MatchHere(s[q..]))
  }

  /** `ms` gives, for each position of `s`, a match lying inside `s` or none. */
  ghost predicate Fits(s: string, ms: seq<Option<Hit>>)
  {
    && |ms| == |s| + 1
    && forall q | 0 <= q < |ms| :: ms[q].Some? ==> 0 < ms[q].value.len <= |s| - q
  }

  /** A match in a text: where it starts, how long it is, and the label it captured. */
  datatype Found = Found(start: nat, len: nat, level: string)

  /** `re.search` from position `p`: the first position at or after `p` where the pattern matches. */
  function SearchFrom(ms: seq<Option<Hit>>, p: nat): (r: Option<Found>)
    requires p < |ms|
    ensures r.Some? ==>
      && p <= r.value.start < |ms|
      && ms[r.value.start] == Some(Hit(r.value.len, r.value.level))
      && forall q | p <= q < r.value.start :: ms[q].None?
    ensures r.None? ==> forall q | p <= q < |ms| :: ms[q].None?
    decreases |ms| - p
  {
    match ms[p]
    case Some(h) => Some(Found(p, h.len, h.level))
    case None => if p == |ms| - 1 then None else SearchFrom(ms, p + 1)
  }

  /** The leftmost match in `s`, if any. */
  function Search(s: string): Option<Found>
  {
    SearchFrom(MatchTable(s), 0)
  }

  /* ---------------------------------------------------------------------------
   * Nivel: str.extract(level_regex)[1].fillna('Unspecified')
   * ------------------------------------------------------------------------- */

  /** The `Nivel` of a row: the label of the leftmost match, "Unspecified" when there is none or the cell is missing. */
  function Nivel(detalles: Option<string>): (nivel: string)
    ensures nivel == Intermediate || nivel == Beginner || nivel == Advanced || nivel == Unspecified
    ensures detalles.None? ==> nivel == Unspecified
  {
    match detalles
    case None => Unspecified
    case Some(s) =>
      match Search(s)
      case None => Unspecified
      case Some(m) => m.level
  }

  /** Where the pattern does not match, no label starts either. */
  lemma {:induction false} NoMatchNoLabelHere(t: string)
    requires MatchHere(t).None?
    ensures !StartsLabel(t)
  {
    if StartsLabel(t) {
      LabelStartMatches(t);
    }
  }

  /** No label starts anywhere in a text without a match. */
  lemma {:induction false} NoMatchNoLabel(s: string)
    requires Search(s).None?
    ensures forall q | 0 <= q <= |s| :: !StartsLabel(s[q..])
  {
    var ms := MatchTable(s);
    forall q | 0 <= q <= |s| ensures !StartsLabel(s[q..]) {
      assert ms[q].None?;
      NoMatchNoLabelHere(s[q..]);
    }
  }

  /** What the leftmost match is, in terms of the matcher at each position. */
  lemma {:induction false} SearchFound(s: string, q: nat)
    requires Search(s).Some? && q <= Search(s).value.start
    ensures Search(s).value.start + Search(s).value.len <= |s|
    ensures q < Search(s).value.start ==> MatchHere(s[q..]).None?
    ensures q == Search(s).value.start ==> MatchHere(s[q..]) == Some(Hit(Search(s).value.len, Search(s).value.level))
  {
    var ms := MatchTable(s);
    assert ms[q] == MatchHere(s[q..]);
  }

  /** The label captured by the leftmost match starts where no label starts before it. */
  lemma {:induction false} FoundLabelIsFirst(s: string)
    requires Search(s).Some?
    ensures
      var m := Search(s).value;
      && IsLabel(m.level) && m.start + m.len - |m.level| <= |s|
      && m.level <= s[m.start + m.len - |m.level|..]
      && forall q | 0 <= q < m.start + m.len - |m.level| :: !StartsLabel(s[q..])
  {
    var m := Search(s).value;
    var t := s[m.start..];
    SearchFound(s, m.start);
    MatchedLabelIsFirst(t);
    var q := m.start + m.len - |m.level|;
    assert s[q..] == t[m.len - |m.level|..];
    forall q' | 0 <= q' < q ensures !StartsLabel(s[q'..]) {
      if q' < m.start {
        SearchFound(s, q');
        NoMatchNoLabelHere(s[q'..]);
      } else {
        assert s[q'..] == t[q' - m.start..];
      }
    }
  }

  /**
   * `Nivel` is the label whose occurrence starts earliest in the text, digits
   * or no digits before it, and "Unspecified" exactly when no label occurs.
   */
  lemma {:induction false} NivelIsEarliestLabel(s: string)
    ensures Nivel(Some(s)) == Unspecified <==> forall q | 0 <= q <= |s| :: !StartsLabel(s[q..])
    ensures Nivel(Some(s)) != Unspecified ==>
      exists q | 0 <= q <= |s| ::
        && Nivel(Some(s)) <= s[q..]
        && forall q' | 0 <= q' < q :: !StartsLabel(s[q'..])
  {
    if Search(s).None? {
      assert Nivel(Some(s)) == Unspecified;
      NoMatchNoLabel(s);
    } else {
      var m := Search(s).value;
      assert Nivel(Some(s)) == m.level;
      FoundLabelIsFirst(s);
      var q := m.start + m.len - |m.level|;
      assert StartsLabel(s[q..]);
    }
  }

  /* ---------------------------------------------------------------------------
   * Detalles: str.replace(level_regex, '').str.strip().str.replace(r'\s{2,}', ' ')
   * ------------------------------------------------------------------------- */

  /**
   * `re.sub(level_regex, '', s[p..])` as the regex engine runs it: search from
   * `p`, drop the match, go on searching where the match ended.
   */
  function SubFrom(s: string, ms: seq<Option<Hit>>, p: nat): (r: string)
    requires Fits(s, ms) && p <= |s|
    ensures |r| <= |s| - p
    decreases |s| - p
  {
    match SearchFrom(ms, p)
    case None => s[p..]
    case Some(m) => s[p..m.start] + SubFrom(s, ms, m.start + m.len)
  }

  /** Every match of one left-to-right pass removed. */
  function RemoveAll(s: string): string
  {
    SubFrom(s, MatchTable(s), 0)
  }

  /**
   * Reference definition: walk the text one position at a time, skipping the
   * match that starts there if there is one, keeping the character otherwise.
   */
  function ScanFrom(s: string, ms: seq<Option<Hit>>, p: nat): string
    requires Fits(s, ms) && p <= |s|
    decreases |s| - p
  {
    if p == |s| then []
    else
      match ms[p]
      case Some(h) => ScanFrom(s, ms, p + h.len)
      case None => [s[p]] + ScanFrom(s, ms, p + 1)
  }

  lemma {:induction false} ScanKeepsUnmatched(s: string, ms: seq<Option<Hit>>, p: nat, q: nat)
    requires Fits(s, ms) && p <= q <= |s|
    requires forall i | p <= i < q :: ms[i].None?
    ensures ScanFrom(s, ms, p) == s[p..q] + ScanFrom(s, ms, q)
    decreases q - p
  {
    if p < q {
      assert ScanFrom(s, ms, p) == [s[p]] + ScanFrom(s, ms, p + 1);
      ScanKeepsUnmatched(s, ms, p + 1, q);
      assert [s[p]] + s[p + 1..q] == s[p..q];
      assert [s[p]] + (s[p + 1..q] + ScanFrom(s, ms, q)) == ([s[p]] + s[p + 1..q]) + ScanFrom(s, ms, q);
    }
  }

  /**
   * The search-and-remove pass equals the position-by-position scan: every
   * match met in one left-to-right pass is dropped, not only the first, and
   * every other character is kept in order.
   */
  lemma {:induction false} SubFromIsScan(s: string, ms: seq<Option<Hit>>, p: nat)
    requires Fits(s, ms) && p <= |s|
    ensures SubFrom(s, ms, p) == ScanFrom(s, ms, p)
    decreases |s| - p
  {
    if SearchFrom(ms, p).Some? {
      var m := SearchFrom(ms, p).value;
      ScanSkipsMatch(s, ms, p);
      SubFromIsScan(s, ms, m.start + m.len);
    } else {
      ScanKeepsUnmatched(s, ms, p, |s|);
    }
  }

  /** Up to the first match, scanning keeps the text; at the match it jumps over it. */
  lemma {:induction false} ScanSkipsMatch(s: string, ms: seq<Option<Hit>>, p: nat)
    requires Fits(s, ms) && p <= |s| && SearchFrom(ms, p).Some?
    ensures
      var m := SearchFrom(ms, p).value;
      && m.start + m.len <= |s|
      && ScanFrom(s, ms, p) == s[p..m.start] + ScanFrom(s, ms, m.start + m.len)
  {
    var m := SearchFrom(ms, p).value;
    ScanKeepsUnmatched(s, ms, p, m.start);
  }

  lemma {:induction false} RemoveAllIsScan(s: string)
    ensures RemoveAll(s) == ScanFrom(s, MatchTable(s), 0)
  {
    SubFromIsScan(s, MatchTable(s), 0);
  }

  /** Removal changes the text exactly when the text holds a match. */
  lemma {:induction false} RemoveAllChangesIffMatch(s: string)
    ensures RemoveAll(s) == s <==> Search(s).None?
  {
    var ms := MatchTable(s);
    match SearchFrom(ms, 0)
    case None =>
    case Some(m) =>
      assert |SubFrom(s, ms, m.start + m.len)| <= |s| - m.start - m.len;
      assert |RemoveAll(s)| < |s|;
  }

  /** Searching passes over positions where nothing matches. */
  lemma {:induction false} SearchFromSkips(ms: seq<Option<Hit>>, p: nat, q: nat)
    requires p <= q < |ms|
    requires forall i | p <= i < q :: ms[i].None?
    ensures SearchFrom(ms, p) == SearchFrom(ms, q)
    decreases q - p
  {
    if p < q {
      SearchFromSkips(ms, p + 1, q);
    }
  }

  /** A character that cannot begin a match: neither a digit nor a label's first letter. */
  predicate Inert(c: char)
  {
    !IsDigit(c) && c != 'I' && c != 'B' && c != 'A'
  }

  /** Nothing matches at an inert character or at the end of the text. */
  lemma {:induction false} NoMatchAtInert(t: string)
    requires t == [] || Inert(t[0])
    ensures MatchHere(t).None?
  {
    if StartsLabel(t) {
      StartsLabelInitial(t);
    }
  }

  /** The level as it may be written in the text: the bare label, or digits, a hyphen and the label. */
  function LevelText(digits: string, level: string): string
  {
    if digits == [] then level else digits + "-" + level
  }

  lemma {:induction false} PrefixOfAppend(a: string, b: string)
    ensures a <= a + b
  {
    assert (a + b)[..|a|] == a;
  }

  /** Written out at the start of a text, a level is matched whole, whatever follows. */
  lemma {:induction false} LevelTextMatches(digits: string, level: string, tail: string)
    requires AllDigits(digits) && IsLabel(level)
    ensures MatchHere(LevelText(digits, level) + tail) == Some(Hit(|LevelText(digits, level)|, level))
  {
    if digits == [] {
      BareLevelMatches(level, tail);
    } else {
      NumberedLevelMatches(digits, level, tail);
    }
  }

  lemma {:induction false} BareLevelMatches(level: string, tail: string)
    requires IsLabel(level)
    ensures MatchHere(level + tail) == Some(Hit(|level|, level))
  {
    var t := level + tail;
    PrefixOfAppend(level, tail);
    LabelAtUnique(t, level);
    LabelStartMatches(t);
  }

  lemma {:induction false} NumberedLevelMatches(digits: string, level: string, tail: string)
    requires digits != [] && AllDigits(digits) && IsLabel(level)
    ensures MatchHere(digits + "-" + level + tail) == Some(Hit(|digits| + 1 + |level|, level))
  {
    var t := digits + "-" + level + tail;
    var k := |digits|;
    NumberedParts(digits, level + tail);
    assert digits + "-" + level + tail == digits + "-" + (level + tail);
    DigitRunUnique(t, k);
    PrefixOfAppend(level, tail);
    LabelAtUnique(level + tail, level);
  }

  lemma {:induction false} NumberedParts(digits: string, u: string)
    ensures (digits + "-" + u)[..|digits|] == digits
    ensures (digits + "-" + u)[|digits|] == '-'
    ensures (digits + "-" + u)[|digits| + 1..] == u
  {
  }

  /**
   * A text holding exactly one match: before it, nothing matches; after it,
   * only inert characters. `Nivel` takes the match's label and the removal
   * leaves the text around it.
   */
  lemma {:induction false} SingleMatchSplit(pre: string, digits: string, level: string, rest: string)
    requires AllDigits(digits) && IsLabel(level)
    requires forall q | 0 <= q < |pre| :: MatchHere((pre + LevelText(digits, level) + rest)[q..]).None?
    requires forall i | 0 <= i < |rest| :: Inert(rest[i])
    ensures Nivel(Some(pre + LevelText(digits, level) + rest)) == level
    ensures RemoveAll(pre + LevelText(digits, level) + rest) == pre + rest
  {
    LevelTextMatches(digits, level, rest);
    SingleMatchCore(pre, LevelText(digits, level), level, rest);
  }

  lemma {:induction false} SingleMatchCore(pre: string, w: string, level: string, rest: string)
    requires MatchHere(w + rest) == Some(Hit(|w|, level))
    requires forall q | 0 <= q < |pre| :: MatchHere((pre + w + rest)[q..]).None?
    requires forall i | 0 <= i < |rest| :: Inert(rest[i])
    ensures Search(pre + w + rest) == Some(Found(|pre|, |w|, level))
    ensures RemoveAll(pre + w + rest) == pre + rest
  {
    var s := pre + w + rest;
    SingleMatchTable(pre, w, level, rest);
    SubFromSingle(s, MatchTable(s), 0, |pre|, |w|, level);
    SplitAround(pre, w, rest);
  }

  lemma {:induction false} SplitAround(pre: string, w: string, rest: string)
    ensures (pre + w + rest)[0..|pre|] + (pre + w + rest)[|pre| + |w|..] == pre + rest
  {
    var s := pre + w + rest;
    assert s == pre + (w + rest);
    TakeAppend(pre, w + rest);
    DropAppend(pre + w, rest);
  }

  /** The match table of such a text: the one match, nothing before it, nothing after. */
  lemma {:induction false} SingleMatchTable(pre: string, w: string, level: string, rest: string)
    requires MatchHere(w + rest) == Some(Hit(|w|, level))
    requires forall q | 0 <= q < |pre| :: MatchHere((pre + w + rest)[q..]).None?
    requires forall i | 0 <= i < |rest| :: Inert(rest[i])
    ensures |pre| + |w| <= |pre + w + rest|
    ensures MatchTable(pre + w + rest)[|pre|] == Some(Hit(|w|, level))
    ensures forall q | 0 <= q < |pre| :: MatchTable(pre + w + rest)[q].None?
    ensures forall q | |pre| + |w| <= q < |MatchTable(pre + w + rest)| :: MatchTable(pre + w + rest)[q].None?
  {
    var s := pre + w + rest;
    var e := |pre| + |w|;
    assert s == pre + (w + rest);
    DropAppend(pre, w + rest);
    DropAppend(pre + w, rest);
    InertTailNoMatch(s, e);
  }

  /** One match in the table from `p` on, at `a` and `n` long: the search finds it, the removal cuts exactly it. */
  lemma {:induction false} SubFromSingle(s: string, ms: seq<Option<Hit>>, p: nat, a: nat, n: nat, level: string)
    requires Fits(s, ms) && p <= a && a + n <= |s|
    requires ms[a] == Some(Hit(n, level))
    requires forall q | p <= q < a :: ms[q].None?
    requires forall q | a + n <= q < |ms| :: ms[q].None?
    ensures SearchFrom(ms, p) == Some(Found(a, n, level))
    ensures SubFrom(s, ms, p) == s[p..a] + s[a + n..]
  {
    SearchFromSkips(ms, p, a);
    SearchFromSkips(ms, a + n, |s|);
    assert SubFrom(s, ms, a + n) == s[a + n..];
  }

  /** Scanning from position `p` of `s` is scanning from position `p - d` of `s[d..]`, when the tables agree. */
  lemma {:induction false} ScanShift(s: string, ms: seq<Option<Hit>>, s2: string, ms2: seq<Option<Hit>>, d: nat, p: nat)
    requires Fits(s, ms) && Fits(s2, ms2) && d <= p <= |s| && s2 == s[d..]
    requires forall i | 0 <= i < |ms2| :: ms[d + i] == ms2[i]
    ensures ScanFrom(s, ms, p) == ScanFrom(s2, ms2, p - d)
    decreases |s| - p
  {
    if p < |s| {
      assert ms[p] == ms2[p - d];
      assert s[p] == s2[p - d];
      match ms[p]
      case Some(h) => ScanShift(s, ms, s2, ms2, d, p + h.len);
      case None => ScanShift(s, ms, s2, ms2, d, p + 1);
    }
  }

  /** The match table of a suffix is the tail of the match table. */
  lemma {:induction false} TableShift(s: string, d: nat)
    requires d <= |s|
    ensures |MatchTable(s)| == |MatchTable(s[d..])| + d
    ensures forall i | 0 <= i < |MatchTable(s[d..])| :: MatchTable(s)[d + i] == MatchTable(s[d..])[i]
  {
    forall i | 0 <= i < |MatchTable(s[d..])| ensures MatchTable(s)[d + i] == MatchTable(s[d..])[i] {
      assert s[d..][i..] == s[d + i..];
    }
  }

  /**
   * Capture one, remove all: `Nivel` is the label of the leftmost match, and
   * the removal cuts that match out and goes on over the rest of the text,
   * removing the later matches as well.
   */
  lemma {:induction false} RemoveAllSplitsAtFirst(s: string)
    requires Search(s).Some?
    ensures Search(s).value.start + Search(s).value.len <= |s|
    ensures Nivel(Some(s)) == Search(s).value.level
    ensures RemoveAll(s) == s[..Search(s).value.start] + RemoveAll(s[Search(s).value.start + Search(s).value.len..])
  {
    var ms := MatchTable(s);
    var m := SearchFrom(ms, 0).value;
    var e := m.start + m.len;
    assert e <= |s|;
    TableShift(s, e);
    SubFromAfterFirst(s, ms, e, s[e..], MatchTable(s[e..]));
  }

  lemma {:induction false} SubFromAfterFirst(s: string, ms: seq<Option<Hit>>, e: nat, s2: string, ms2: seq<Option<Hit>>)
    requires Fits(s, ms) && Fits(s2, ms2) && SearchFrom(ms, 0).Some?
    requires e == SearchFrom(ms, 0).value.start + SearchFrom(ms, 0).value.len
    requires e <= |s| && s2 == s[e..]
    requires forall i | 0 <= i < |ms2| :: ms[e + i] == ms2[i]
    ensures SubFrom(s, ms, 0) == s[..SearchFrom(ms, 0).value.start] + SubFrom(s2, ms2, 0)
  {
    var m := SearchFrom(ms, 0).value;
    assert SubFrom(s, ms, 0) == s[0..m.start] + SubFrom(s, ms, e);
    SubFromIsScan(s, ms, e);
    ScanShift(s, ms, s2, ms2, e, e);
    SubFromIsScan(s2, ms2, 0);
    assert s[0..m.start] == s[..m.start];
  }

  lemma {:induction false} DropAppend(a: string, b: string)
    ensures (a + b)[|a|..] == b
  {
  }

  lemma {:induction false} TakeAppend(a: string, b: string)
    ensures (a + b)[0..|a|] == a
  {
  }

  /** Past `e` only inert characters: nothing matches there. */
  lemma {:induction false} InertTailNoMatch(s: string, e: nat)
    requires e <= |s|
    requires forall i | 0 <= i < |s[e..]| :: Inert(s[e..][i])
    ensures forall q | e <= q <= |s| :: MatchHere(s[q..]).None?
  {
    forall q | e <= q <= |s| ensures MatchHere(s[q..]).None? {
      if q < |s| {
        assert s[q..][0] == s[e..][q - e];
      }
      NoMatchAtInert(s[q..]);
    }
  }

  /** No two whitespace characters next to each other. */
  ghost predicate NoDoubleSpace(s: string)
  {
    forall i | 0 <= i < |s| - 1 :: !(IsSpace(s[i]) && IsSpace(s[i + 1]))
  }

  /**
   * `re.sub(r'\s{2,}', ' ', s)`: each run of two or more whitespace characters
   * (taken whole, greedily) becomes one space; a lone whitespace character stays.
   */
  function Collapse(s: string): (r: string)
    ensures |r| <= |s|
    ensures r == [] <==> s == []
    decreases |s|
  {
    if s == [] then []
    else if |s| >= 2 && IsSpace(s[0]) && IsSpace(s[1]) then
      " " + Collapse(TrimLeft(s))
    else
      [s[0]] + Collapse(s[1..])
  }

  /** Collapsing keeps the edges: the result starts (ends) with whitespace exactly when the text does. */
  lemma {:induction false} CollapseEdges(s: string)
    requires s != []
    ensures IsSpace(Collapse(s)[0]) <==> IsSpace(s[0])
    ensures IsSpace(Collapse(s)[|Collapse(s)| - 1]) <==> IsSpace(s[|s| - 1])
    decreases |s|
  {
    if |s| >= 2 && IsSpace(s[0]) && IsSpace(s[1]) {
      var rest := TrimLeft(s);
      TrimLeftCutsSpace(s);
      TrimLeftIsSuffix(s);
      if rest == [] {
        assert s[..|s|] == s;
      } else {
        assert rest[|rest| - 1] == s[|s| - 1];
        CollapseEdges(rest);
      }
    } else if |s| > 1 {
      CollapseEdges(s[1..]);
    }
  }

  /** Collapsing text without edge whitespace gives text without edge whitespace. */
  lemma {:induction false} CollapseKeepsStripped(s: string)
    requires IsStripped(s)
    ensures IsStripped(Collapse(s))
  {
    if s != [] {
      CollapseEdges(s);
    }
  }

  /** After collapsing, no two whitespace characters are adjacent. */
  lemma {:induction false} CollapseNoDoubleSpace(s: string)
    ensures NoDoubleSpace(Collapse(s))
    decreases |s|
  {
    if s == [] {
    } else if |s| >= 2 && IsSpace(s[0]) && IsSpace(s[1]) {
      var rest := TrimLeft(s);
      CollapseNoDoubleSpace(rest);
      if rest != [] { CollapseEdges(rest); }
      NoDoubleSpaceCons(' ', Collapse(rest));
    } else {
      CollapseNoDoubleSpace(s[1..]);
      if |s| > 1 { CollapseEdges(s[1..]); }
      NoDoubleSpaceCons(s[0], Collapse(s[1..]));
    }
  }

  lemma {:induction false} NoDoubleSpaceCons(c: char, r: string)
    requires NoDoubleSpace(r)
    requires r == [] || !IsSpace(c) || !IsSpace(r[0])
    ensures NoDoubleSpace([c] + r)
  {
    var cr := [c] + r;
    forall i | 0 <= i < |cr| - 1 ensures !(IsSpace(cr[i]) && IsSpace(cr[i + 1])) {
      if i > 0 {
        assert cr[i] == r[i - 1] && cr[i + 1] == r[i];
      }
    }
  }

  /** The non-whitespace characters of a text, in order. */
  function Visible(s: string): string
  {
    if s == [] then [] else (if IsSpace(s[0]) then [] else [s[0]]) + Visible(s[1..])
  }

  lemma {:induction false} VisibleTrimLeft(s: string)
    ensures Visible(TrimLeft(s)) == Visible(s)
  {
    if s != [] && IsSpace(s[0]) {
      VisibleTrimLeft(s[1..]);
    }
  }

  /** Collapsing only touches whitespace: the visible characters are kept, in order. */
  lemma {:induction false} CollapseKeepsVisible(s: string)
    ensures Visible(Collapse(s)) == Visible(s)
    decreases |s|
  {
    if s == [] {
    } else if |s| >= 2 && IsSpace(s[0]) && IsSpace(s[1]) {
      var rest := TrimLeft(s);
      CollapseKeepsVisible(rest);
      VisibleTrimLeft(s);
      assert (" " + Collapse(rest))[1..] == Collapse(rest);
    } else {
      CollapseKeepsVisible(s[1..]);
      assert ([s[0]] + Collapse(s[1..]))[1..] == Collapse(s[1..]);
    }
  }

  /** Text with no adjacent whitespace is left as it is. */
  lemma {:induction false} CollapseUnchanged(s: string)
    requires NoDoubleSpace(s)
    ensures Collapse(s) == s
  {
    if s != [] {
      assert NoDoubleSpace(s[1..]) by {
        forall i | 0 <= i < |s[1..]| - 1 ensures !(IsSpace(s[1..][i]) && IsSpace(s[1..][i + 1])) {
          assert s[1..][i] == s[i + 1] && s[1..][i + 1] == s[i + 2];
        }
      }
      CollapseUnchanged(s[1..]);
    }
  }

  /**
   * A run of two or more whitespace characters between non-whitespace text
   * becomes exactly one space, and the text on either side is collapsed on
   * its own.
   */
  lemma {:induction false} CollapseRun(a: string, w: string, b: string)
    requires a == [] || !IsSpace(a[|a| - 1])
    requires AllSpace(w) && |w| >= 2
    requires b == [] || !IsSpace(b[0])
    ensures Collapse(a + w + b) == Collapse(a) + " " + Collapse(b)
  {
    var wb := w + b;
    assert a + w + b == a + wb;
    CollapseAppend(a, wb);
    assert IsSpace(wb[0]) && IsSpace(wb[1]);
    CollapseSpaces(wb);
    TrimLeftSpaceRun(w, b);
  }

  /** A lone whitespace character between non-whitespace text is kept as it is. */
  lemma {:induction false} CollapseLoneSpace(a: string, c: char, b: string)
    requires a == [] || !IsSpace(a[|a| - 1])
    requires IsSpace(c)
    requires b == [] || !IsSpace(b[0])
    ensures Collapse(a + [c] + b) == Collapse(a) + [c] + Collapse(b)
  {
    var cb := [c] + b;
    assert a + [c] + b == a + cb;
    CollapseAppend(a, cb);
    assert cb[1..] == b;
    CollapseKeep(cb);
  }

  /** Text ending in a non-whitespace character collapses independently of what follows. */
  lemma {:induction false} CollapseAppend(a: string, x: string)
    requires a == [] || !IsSpace(a[|a| - 1])
    ensures Collapse(a + x) == Collapse(a) + Collapse(x)
    decreases |a|
  {
    if a == [] {
      assert a + x == x;
    } else if |a| >= 2 && IsSpace(a[0]) && IsSpace(a[1]) {
      var t := TrimLeft(a);
      TrimLeftStopsInside(a, x);
      CollapseAppend(t, x);
      CollapseAppendSpaces(a, x, t);
    } else if |a| == 1 {
      CollapseAppendSingle(a[0], x);
      CollapseAppendSingle(a[0], []);
      assert a == [a[0]] && a + [] == a;
    } else {
      CollapseAppend(a[1..], x);
      CollapseAppendKeep(a, x);
    }
  }

  /** The step of `CollapseAppend` for a text opening with a whitespace run. */
  lemma {:induction false} CollapseAppendSpaces(a: string, x: string, t: string)
    requires |a| >= 2 && IsSpace(a[0]) && IsSpace(a[1])
    requires t == TrimLeft(a) && TrimLeft(a + x) == t + x
    requires Collapse(t + x) == Collapse(t) + Collapse(x)
    ensures Collapse(a + x) == Collapse(a) + Collapse(x)
  {
    var s := a + x;
    assert s[0] == a[0] && s[1] == a[1];
    CollapseSpaces(s);
    CollapseSpaces(a);
  }

  /** The step of `CollapseAppend` for a text whose first character is kept. */
  lemma {:induction false} CollapseAppendKeep(a: string, x: string)
    requires |a| >= 2 && !(IsSpace(a[0]) && IsSpace(a[1]))
    requires Collapse(a[1..] + x) == Collapse(a[1..]) + Collapse(x)
    ensures Collapse(a + x) == Collapse(a) + Collapse(x)
  {
    var s := a + x;
    assert s[0] == a[0] && s[1] == a[1] && s[1..] == a[1..] + x;
    CollapseKeep(s);
    CollapseKeep(a);
  }

  /** A single non-whitespace character is kept in front of whatever follows. */
  lemma {:induction false} CollapseAppendSingle(c: char, x: string)
    requires !IsSpace(c)
    ensures Collapse([c] + x) == [c] + Collapse(x)
  {
    assert ([c] + x)[1..] == x;
    CollapseKeep([c] + x);
  }

  /** A text opening with two whitespace characters: the whole leading run becomes one space. */
  lemma {:induction false} CollapseSpaces(s: string)
    requires |s| >= 2 && IsSpace(s[0]) && IsSpace(s[1])
    ensures Collapse(s) == " " + Collapse(TrimLeft(s))
  {
  }

  /** Any other non-empty text: its first character is kept. */
  lemma {:induction false} CollapseKeep(s: string)
    requires s != [] && !(|s| >= 2 && IsSpace(s[0]) && IsSpace(s[1]))
    ensures Collapse(s) == [s[0]] + Collapse(s[1..])
  {
  }

  /**
   * `lstrip` of a text ending in non-whitespace stops inside it, before its
   * last character.
   */
  lemma {:induction false} TrimLeftStopsInside(a: string, x: string)
    requires a != [] && !IsSpace(a[|a| - 1])
    ensures TrimLeft(a + x) == TrimLeft(a) + x
    ensures TrimLeft(a) != [] && TrimLeft(a)[|TrimLeft(a)| - 1] == a[|a| - 1]
    decreases |a|
  {
    if IsSpace(a[0]) {
      assert (a + x)[1..] == a[1..] + x;
      TrimLeftStopsInside(a[1..], x);
    }
  }

  /** `lstrip` of whitespace followed by a text that does not start with whitespace leaves that text. */
  lemma {:induction false} TrimLeftSpaceRun(w: string, b: string)
    requires AllSpace(w)
    requires b == [] || !IsSpace(b[0])
    ensures TrimLeft(w + b) == b
    decreases |w|
  {
    if w == [] {
      assert w + b == b;
    } else {
      assert (w + b)[1..] == w[1..] + b;
      TrimLeftSpaceRun(w[1..], b);
    }
  }

  /** The new `Detalles` of a row; a missing cell stays missing. */
  function CleanDetalles(detalles: Option<string>): (r: Option<string>)
    ensures r.None? <==> detalles.None?
    ensures r.Some? ==> IsStripped(r.value) && NoDoubleSpace(r.value)
  {
    match detalles
    case None => None
    case Some(s) =>
      var stripped := Strip(RemoveAll(s));
      CollapseNoDoubleSpace(stripped);
      CollapseKeepsStripped(stripped);
      Some(Collapse(stripped))
  }

  /** Text without a match changes only at its whitespace: ends trimmed, runs of two or more made one space. */
  lemma {:induction false} CleanDetallesWithoutMatch(s: string)
    requires Search(s).None?
    ensures CleanDetalles(Some(s)) == Some(Collapse(Strip(s)))
  {
    RemoveAllChangesIffMatch(s);
  }

  /** A numbered level at the start: "2-Intermediate Grammar" gives "Intermediate" and "Grammar". */
  lemma {:induction false} NumberedLevelExample()
    ensures Nivel(Some("2-Intermediate Grammar")) == Intermediate
    ensures CleanDetalles(Some("2-Intermediate Grammar")) == Some("Grammar")
  {
    NumberedLevelSplit();
    StripGrammar();
    GrammarUnchanged();
    CleanDetallesOf("2-Intermediate Grammar", " Grammar", "Grammar");
  }

  /** The cleaned text, step by step: removal, strip, collapse. */
  lemma {:induction false} CleanDetallesOf(s: string, removed: string, cleaned: string)
    requires RemoveAll(s) == removed && Strip(removed) == cleaned && Collapse(cleaned) == cleaned
    ensures CleanDetalles(Some(s)) == Some(cleaned)
  {
  }

  lemma {:induction false} NumberedLevelSplit()
    ensures Nivel(Some("2-Intermediate Grammar")) == Intermediate
    ensures RemoveAll("2-Intermediate Grammar") == " Grammar"
  {
    var rest := " Grammar";
    assert LevelText("2", Intermediate) == "2-Intermediate";
    assert "2-Intermediate Grammar" == [] + LevelText("2", Intermediate) + rest;
    assert forall i | 0 <= i < |rest| :: Inert(rest[i]);
    SingleMatchSplit([], "2", Intermediate, rest);
    assert [] + rest == rest;
  }

  lemma {:induction false} StripGrammar()
    ensures Strip(" Grammar") == "Grammar"
  {
    assert TrimLeft(" Grammar") == "Grammar";
  }

  lemma {:induction false} GrammarUnchanged()
    ensures Collapse("Grammar") == "Grammar"
  {
    var g := "Grammar";
    assert forall i | 0 <= i < |g| :: 'a' <= g[i] <= 'z' || g[i] == 'G';
    CollapseUnchanged(g);
  }

  /**
   * One pass only: in "BeginAdvancedner" the removal takes out "Advanced" and
   * leaves "Beginner", in which the pattern matches again; the result is not
   * searched a second time.
   */
  lemma {:induction false} SinglePassExample()
    ensures Nivel(Some("BeginAdvancedner")) == Advanced
    ensures RemoveAll("BeginAdvancedner") == Beginner
    ensures Search(Beginner).Some?
  {
    AdvancedSplit();
    BeginnerFound();
  }

  lemma {:induction false} AdvancedSplit()
    ensures Nivel(Some("BeginAdvancedner")) == Advanced
    ensures RemoveAll("BeginAdvancedner") == Beginner
  {
    BeginNoMatch();
    AdvancedSplitText();
    SingleMatchSplit("Begin", [], Advanced, "ner");
  }

  lemma {:induction false} AdvancedSplitText()
    ensures "Begin" + LevelText([], Advanced) + "ner" == "BeginAdvancedner"
    ensures "Begin" + "ner" == Beginner
    ensures forall i | 0 <= i < |"ner"| :: Inert("ner"[i])
  {
  }

  /** In "BeginAdvancedner" nothing matches before "Advanced": "Begin" is no label. */
  lemma {:induction false} BeginNoMatch()
    ensures forall q | 0 <= q < |"Begin"| :: MatchHere(("Begin" + LevelText([], Advanced) + "ner")[q..]).None?
  {
    var s := "Begin" + LevelText([], Advanced) + "ner";
    assert s == "BeginAdvancedner";
    forall q | 0 <= q < 5 ensures MatchHere(s[q..]).None? {
      if q == 0 {
        assert !(Beginner <= s) by { assert s[5] != Beginner[5]; }
        assert !StartsLabel(s);
      } else {
        NoMatchAtInert(s[q..]);
      }
    }
  }

  lemma {:induction false} BeginnerFound()
    ensures Search(Beginner).Some?
  {
    var ms := MatchTable(Beginner);
    BareLevelMatches(Beginner, []);
    assert Beginner + [] == Beginner;
    assert ms[0].Some?;
  }

  /**
   * Capture one, remove all: in "Beginner to Advanced" `Nivel` is "Beginner",
   * yet both levels leave the details, which become "to".
   */
  lemma {:induction false} TwoLevelsExample()
    ensures Nivel(Some("Beginner to Advanced")) == Beginner
    ensures CleanDetalles(Some("Beginner to Advanced")) == Some("to")
  {
    BeginnerFirst();
    RemoveAllSplitsAtFirst("Beginner to Advanced");
    AdvancedLast();
    StripTo();
    ToUnchanged();
    CleanDetallesOf("Beginner to Advanced", " to ", "to");
  }

  /** "Beginner to Advanced" matches at its start, on "Beginner"; the rest of the text is " to Advanced". */
  lemma {:induction false} BeginnerFirst()
    ensures Search("Beginner to Advanced") == Some(Found(0, 8, Beginner))
    ensures "Beginner to Advanced"[..0] == [] && "Beginner to Advanced"[8..] == " to Advanced"
  {
    var s := "Beginner to Advanced";
    assert s == Beginner + " to Advanced";
    BareLevelMatches(Beginner, " to Advanced");
    assert MatchTable(s)[0] == Some(Hit(8, Beginner)) by {
      assert s[0..] == s;
    }
  }

  lemma {:induction false} AdvancedLast()
    ensures RemoveAll(" to Advanced") == " to "
  {
    ToNoMatch();
    assert " to " + LevelText([], Advanced) + [] == " to Advanced";
    assert " to " + [] == " to ";
    SingleMatchSplit(" to ", [], Advanced, []);
  }

  lemma {:induction false} ToNoMatch()
    ensures forall q | 0 <= q < |" to "| :: MatchHere((" to " + LevelText([], Advanced) + [])[q..]).None?
  {
    var s := " to " + LevelText([], Advanced) + [];
    forall q | 0 <= q < 4 ensures MatchHere(s[q..]).None? {
      assert s[q..][0] == " to "[q];
      NoMatchAtInert(s[q..]);
    }
  }

  lemma {:induction false} StripTo()
    ensures Strip(" to ") == "to"
  {
    assert TrimLeft(" to ") == "to ";
    assert TrimRight("to ") == "to";
  }

  lemma {:induction false} ToUnchanged()
    ensures Collapse("to") == "to"
  {
    CollapseUnchanged("to");
  }

  /** A "Level-" prefix is no part of the pattern: it stays in the details when the label goes. */
  lemma {:induction false} LevelPrefixExample()
    ensures Nivel(Some("Level-Beginner Grammar")) == Beginner
    ensures CleanDetalles(Some("Level-Beginner Grammar")) == Some("Level- Grammar")
  {
    LevelPrefixSplit();
    LevelGrammarClean();
    CleanDetallesOf("Level-Beginner Grammar", "Level- Grammar", "Level- Grammar");
  }

  lemma {:induction false} LevelPrefixSplit()
    ensures Nivel(Some("Level-Beginner Grammar")) == Beginner
    ensures RemoveAll("Level-Beginner Grammar") == "Level- Grammar"
  {
    LevelNoMatch();
    LevelPrefixText();
    SingleMatchSplit("Level-", [], Beginner, " Grammar");
  }

  lemma {:induction false} LevelPrefixText()
    ensures "Level-" + LevelText([], Beginner) + " Grammar" == "Level-Beginner Grammar"
    ensures "Level-" + " Grammar" == "Level- Grammar"
    ensures forall i | 0 <= i < |" Grammar"| :: Inert(" Grammar"[i])
  {
  }

  lemma {:induction false} LevelNoMatch()
    ensures forall q | 0 <= q < |"Level-"| :: MatchHere(("Level-" + LevelText([], Beginner) + " Grammar")[q..]).None?
  {
    var s := "Level-" + LevelText([], Beginner) + " Grammar";
    forall q | 0 <= q < 6 ensures MatchHere(s[q..]).None? {
      assert s[q..][0] == "Level-"[q];
      NoMatchAtInert(s[q..]);
    }
  }

  lemma {:induction false} LevelGrammarClean()
    ensures Strip("Level- Grammar") == "Level- Grammar"
    ensures Collapse("Level- Grammar") == "Level- Grammar"
  {
    var t := "Level- Grammar";
    StripFixedPoint(t);
    assert forall i | 0 <= i < |t| && i != 6 :: !IsSpace(t[i]);
    CollapseUnchanged(t);
  }

  /* ---------------------------------------------------------------------------
   * Rows
   * ------------------------------------------------------------------------- */

  /** One row as read back from the scrapers' CSV; a missing text cell is `None` (NaN). */
  datatype Row = Row(id: int, titulo: Option<string>, detalles: Option<string>, url: Option<string>)

  /** The row after the pass: `Detalles` rewritten and `Nivel` appended as the last column. */
  datatype ProcessedRow = ProcessedRow(id: int, titulo: Option<string>, detalles: Option<string>, url: Option<string>, nivel: string)

  function ProcessRow(row: Row): ProcessedRow
  {
    ProcessedRow(row.id, row.titulo, CleanDetalles(row.detalles), row.url, Nivel(row.detalles))
  }

  /**
   * The two whole-column assignments, row by row. The pass keeps every row and
   * the other columns as they are; each `Nivel` is the label of the row's
   * leftmost match (`NivelIsEarliestLabel`) and each `Detalles` the cleaned
   * text, so `Nivel` is one of the four values, and a missing `Detalles` gives
   * "Unspecified" and stays missing.
   */
  function ProcessTable(rows: seq<Row>): (out: seq<ProcessedRow>)
    ensures |out| == |rows|
    ensures forall i | 0 <= i < |rows| ::
      && out[i].id == rows[i].id && out[i].titulo == rows[i].titulo && out[i].url == rows[i].url
      && out[i].nivel == Nivel(rows[i].detalles) && out[i].detalles == CleanDetalles(rows[i].detalles)
      && (out[i].nivel == Intermediate || out[i].nivel == Beginner || out[i].nivel == Advanced || out[i].nivel == Unspecified)
      && (out[i].detalles.None? <==> rows[i].detalles.None?)
      && (rows[i].detalles.None? ==> out[i].nivel == Unspecified)
      && (out[i].detalles.Some? ==> IsStripped(out[i].detalles.value) && NoDoubleSpace(out[i].detalles.value))
  {
    seq(|rows|, i requires 0 <= i < |rows| => ProcessRow(rows[i]))
  }
}
