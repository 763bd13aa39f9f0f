/**
 * The two lesson scrapers (src/scraper_selenium.py and its near-duplicate
 * scraper_selenium.py at the repository root). The browser is abstracted away:
 * the page snapshot is a sequence of cards whose three lookups either find
 * their element or fail.
 */
module Scraper {

  import opened Wrappers
  import opened Text

  /* ---------------------------------------------------------------------------
   * Details cleanup: info.replace("\n", " | ").replace("•", "").strip()
   * ------------------------------------------------------------------------- */

  /** The bullet character the category list puts between its entries. */
  const Bullet: char := '\U{2022}'

  /** What each line break of the category list becomes. */
  const Separator: string := " | "

  /** `s.replace(c, t)`: every occurrence of the character `c` replaced by `t`. */
  function ReplaceChar(s: string, c: char, t: string): (r: string)
    ensures c !in s ==> r == s
    ensures c !in t ==> c !in r
  {
    if s == [] then []
    else (if s[0] == c then t else [s[0]]) + ReplaceChar(s[1..], c, t)
  }

  /** Replacing introduces no character that neither the text nor the replacement has. */
  lemma {:induction false} ReplaceCharAddsNothing(s: string, c: char, t: string, x: char)
    requires x !in s && x !in t
    ensures x !in ReplaceChar(s, c, t)
  {
    if s != [] {
      assert x !in s[1..];
      ReplaceCharAddsNothing(s[1..], c, t, x);
    }
  }

  /** The cleaned category/level text of one lesson card. */
  function CleanDetails(info: string): (r: string)
    ensures '\n' !in r && Bullet !in r
    ensures IsStripped(r)
  {
    var expanded := ReplaceChar(info, '\n', Separator);
    var t := ReplaceChar(expanded, Bullet, "");
    ReplaceCharAddsNothing(expanded, Bullet, "", '\n');
    assert '\n' !in Strip(t) by {
      if '\n' in Strip(t) { StripKeepsCharacters(t, '\n'); }
    }
    assert Bullet !in Strip(t) by {
      if Bullet in Strip(t) { StripKeepsCharacters(t, Bullet); }
    }
    Strip(t)
  }

  /** Reference definition: what a single character of the raw text turns into. */
  function CharImage(c: char): string
  {
    if c == '\n' then Separator else if c == Bullet then "" else [c]
  }

  /** Reference definition: the raw text rewritten one character at a time. */
  function Normalize(s: string): string
  {
    if s == [] then [] else CharImage(s[0]) + Normalize(s[1..])
  }

  lemma {:induction false} ReplaceCharAppend(a: string, b: string, c: char, t: string)
    ensures ReplaceChar(a + b, c, t) == ReplaceChar(a, c, t) + ReplaceChar(b, c, t)
  {
    if a == [] {
      assert a + b == b;
    } else {
      assert (a + b)[0] == a[0] && (a + b)[1..] == a[1..] + b;
      ReplaceCharAppend(a[1..], b, c, t);
      var head := if a[0] == c then t else [a[0]];
      calc {
        ReplaceChar(a + b, c, t);
        head + ReplaceChar(a[1..] + b, c, t);
        head + (ReplaceChar(a[1..], c, t) + ReplaceChar(b, c, t));
        (head + ReplaceChar(a[1..], c, t)) + ReplaceChar(b, c, t);
      }
    }
  }

  /**
   * The two chained replacements act character by character: each line break
   * becomes " | ", each bullet disappears, every other character is kept in order.
   */
  lemma {:induction false} ReplaceChainIsCharImage(s: string)
    ensures ReplaceChar(ReplaceChar(s, '\n', Separator), Bullet, "") == Normalize(s)
  {
    if s != [] {
      var head := if s[0] == '\n' then Separator else [s[0]];
      var rest := ReplaceChar(s[1..], '\n', Separator);
      assert ReplaceChar(s, '\n', Separator) == head + rest;
      ReplaceCharAppend(head, rest, Bullet, "");
      ReplaceChainIsCharImage(s[1..]);
    }
  }

  /**
   * Apart from the whitespace `strip()` cuts at the two ends, the cleaned text
   * is the raw text rewritten character by character.
   */
  lemma {:induction false} CleanDetailsIsStrippedImage(info: string)
    ensures CleanDetails(info) == Strip(Normalize(info))
  {
    ReplaceChainIsCharImage(info);
  }

  /** Cleaning text that is already clean changes nothing. */
  lemma {:induction false} CleanDetailsIdempotent(info: string)
    ensures CleanDetails(CleanDetails(info)) == CleanDetails(info)
  {
    var r := CleanDetails(info);
    StripFixedPoint(r);
  }

  /** Two entries on separate lines are joined by " | ". */
  lemma {:induction false} CleanDetailsJoinsLines(a: string, b: string)
    requires a != [] && b != [] && IsStripped(a) && IsStripped(b)
    requires '\n' !in a && Bullet !in a && '\n' !in b && Bullet !in b
    ensures CleanDetails(a + "\n" + b) == a + Separator + b
  {
    var cleaned := a + Separator + b;
    assert Normalize(a + "\n" + b) == cleaned by {
      NormalizeJoin(a, "\n", b);
      assert Normalize("\n") == Separator;
    }
    assert Strip(cleaned) == cleaned by {
      StripFixedPoint(cleaned);
    }
    CleanDetailsIsStrippedImage(a + "\n" + b);
  }

  /** A bullet opening the second line disappears, but the space after it stays: two spaces follow the bar. */
  lemma {:induction false} CleanDetailsKeepsSpaceAfterBullet(a: string, b: string)
    requires a != [] && b != [] && IsStripped(a) && IsStripped(b)
    requires '\n' !in a && Bullet !in a && '\n' !in b && Bullet !in b
    ensures CleanDetails(a + "\n" + [Bullet] + " " + b) == a + Separator + " " + b
  {
    var cleaned := a + Separator + " " + b;
    assert Normalize(a + "\n" + [Bullet] + " " + b) == cleaned by {
      var sep := "\n" + [Bullet] + " ";
      assert a + "\n" + [Bullet] + " " + b == a + sep + b;
      NormalizeJoin(a, sep, b);
      NormalizeBulletLine();
    }
    assert Strip(cleaned) == cleaned by {
      StripFixedPoint(cleaned);
    }
    CleanDetailsIsStrippedImage(a + "\n" + [Bullet] + " " + b);
  }

  lemma {:induction false} NormalizeBulletLine()
    ensures Normalize("\n" + [Bullet] + " ") == Separator + " "
  {
    assert "\n" + [Bullet] + " " == "\n" + ([Bullet] + " ");
    NormalizeAppend("\n", [Bullet] + " ");
    NormalizeAppend([Bullet], " ");
    assert Normalize([Bullet]) == [] && Normalize(" ") == " " && Normalize("\n") == Separator;
  }

  lemma {:induction false} NormalizeJoin(a: string, sep: string, b: string)
    requires '\n' !in a && Bullet !in a && '\n' !in b && Bullet !in b
    ensures Normalize(a + sep + b) == a + Normalize(sep) + b
  {
    NormalizeUnchanged(a);
    NormalizeUnchanged(b);
    NormalizeAppend(a, sep);
    NormalizeAppend(a + sep, b);
  }

  lemma {:induction false} NormalizeAppend(a: string, b: string)
    ensures Normalize(a + b) == Normalize(a) + Normalize(b)
  {
    if a == [] {
      assert a + b == b;
    } else {
      assert (a + b)[0] == a[0] && (a + b)[1..] == a[1..] + b;
      NormalizeAppend(a[1..], b);
    }
  }

  /** Text with no line break and no bullet is its own image. */
  lemma {:induction false} NormalizeUnchanged(s: string)
    requires '\n' !in s && Bullet !in s
    ensures Normalize(s) == s
  {
    if s != [] {
      assert s == [s[0]] + s[1..];
      NormalizeUnchanged(s[1..]);
    }
  }

  /* ---------------------------------------------------------------------------
   * Cards and records
   * ------------------------------------------------------------------------- */

  /** The lesson link element; `get_attribute("href")` yields no value when the attribute is absent. */
  datatype LinkElement = LinkElement(href: Option<string>)

  /**
   * One card of the page snapshot, seen through its three lookups: the title
   * text, the link element and the category-list text. `None` is a lookup that
   * raised.
   */
  datatype Card = Card(title: Option<string>, link: Option<LinkElement>, details: Option<string>)

  /** One row of the output: the ID column is the card's 1-based position. */
  datatype Record = Record(id: nat, title: string, details: string, url: Option<string>)

  /** All three lookups of the card succeed. */
  predicate Readable(card: Card)
  {
    card.title.Some? && card.link.Some? && card.details.Some?
  }

  /** The body of the per-card `try`: a record when every lookup succeeds, nothing otherwise. */
  function ExtractCard(card: Card, ordinal: nat): (r: Option<Record>)
    ensures r.Some? <==> Readable(card)
    ensures r.Some? ==>
      && r.value.id == ordinal && r.value.title == card.title.value
      && r.value.details == CleanDetails(card.details.value) && r.value.url == card.link.value.href
  {
    if Readable(card) then
      Some(Record(ordinal, card.title.value, CleanDetails(card.details.value), card.link.value.href))
    else
      None
  }

  /** The per-card results, in card order: card `i` (0-based) is tried under ordinal `i + 1`. */
  function Attempts(cards: seq<Card>): (rs: seq<Option<Record>>)
    ensures |rs| == |cards|
    ensures forall i | 0 <= i < |cards| :: rs[i] == ExtractCard(cards[i], i + 1)
  {
    seq(|cards|, i requires 0 <= i < |cards| => ExtractCard(cards[i], i + 1))
  }

  /** The records carried by the successful results, in order. */
  function Survivors(rs: seq<Option<Record>>): seq<Record>
  {
    if rs == [] then []
    else
      var n := |rs|;
      Survivors(rs[..n - 1]) + if rs[n - 1].Some? then [rs[n - 1].value] else []
  }

  /** The 1-based positions of the failed results, in order. */
  function Failures(rs: seq<Option<Record>>): seq<nat>
  {
    if rs == [] then []
    else
      var n := |rs|;
      Failures(rs[..n - 1]) + if rs[n - 1].Some? then [] else [n]
  }

  /** The records the loop appends. */
  function Harvest(cards: seq<Card>): seq<Record>
  {
    Survivors(Attempts(cards))
  }

  /** The ordinals of the cards the loop warns about. */
  function FailedOrdinals(cards: seq<Card>): seq<nat>
  {
    Failures(Attempts(cards))
  }

  /**
   * The extraction loop: walk the cards with a 1-based ordinal, append a record
   * for each card whose lookups all succeed, and note the ordinal of each card
   * that fails before going on with the next one.
   */
  method ExtractCards(cards: seq<Card>) returns (records: seq<Record>, failed: seq<nat>)
    ensures records == Harvest(cards)
    ensures failed == FailedOrdinals(cards)
  {
    ghost var attempts := Attempts(cards);
    records, failed := [], [];
    for i := 1 to |cards| + 1
      invariant records == Survivors(attempts[..i - 1])
      invariant failed == Failures(attempts[..i - 1])
    {
      assert attempts[..i][..i - 1] == attempts[..i - 1];
      var card := cards[i - 1];
      match (card.title, card.link, card.details)
      case (Some(title), Some(linkElem), Some(info)) =>
        var link := linkElem.href;
        var infoClean := CleanDetails(info);
        records := records + [Record(i, title, infoClean, link)];
      case _ =>
        failed := failed + [i];
    }
    assert attempts[..|cards|] == attempts;
  }

  /* ---------------------------------------------------------------------------
   * What the loop produces
   * ------------------------------------------------------------------------- */

  /** Each successful result carries its own 1-based position as ID. */
  ghost predicate Numbered(rs: seq<Option<Record>>)
  {
    forall i | 0 <= i < |rs| && rs[i].Some? :: rs[i].value.id == i + 1
  }

  /** Each record is the successful result at the position its ID names. */
  ghost predicate IdsAreOrdinals(rs: seq<Option<Record>>, records: seq<Record>)
  {
    forall j | 0 <= j < |records| :: 1 <= records[j].id <= |rs| && rs[records[j].id - 1] == Some(records[j])
  }

  ghost predicate IdsIncrease(records: seq<Record>)
  {
    forall j, k | 0 <= j < k < |records| :: records[j].id < records[k].id
  }

  ghost predicate OrdinalsIncrease(ns: seq<nat>)
  {
    forall j, k | 0 <= j < k < |ns| :: ns[j] < ns[k]
  }

  lemma {:induction false} AttemptsNumbered(cards: seq<Card>)
    ensures Numbered(Attempts(cards))
    ensures forall i | 0 <= i < |cards| :: Attempts(cards)[i].Some? <==> Readable(cards[i])
  {
  }

  /** Survivors keep their positions as IDs, in order, each within 1..total. */
  lemma {:induction false} SurvivorsIds(rs: seq<Option<Record>>)
    requires Numbered(rs)
    ensures |Survivors(rs)| <= |rs|
    ensures IdsAreOrdinals(rs, Survivors(rs))
    ensures IdsIncrease(Survivors(rs))
  {
    if rs != [] {
      var n := |rs|;
      var prefix := rs[..n - 1];
      SurvivorsIds(prefix);
      var s := Survivors(rs);
      forall j | 0 <= j < |s|
        ensures 1 <= s[j].id <= n && rs[s[j].id - 1] == Some(s[j])
      {
        if j < |Survivors(prefix)| {
          assert s[j] == Survivors(prefix)[j];
          assert rs[s[j].id - 1] == prefix[s[j].id - 1];
        }
      }
    }
  }

  /** The failure ordinals are increasing, lie in 1..total and name failed results. */
  lemma {:induction false} FailuresBounds(rs: seq<Option<Record>>)
    ensures OrdinalsIncrease(Failures(rs))
    ensures forall j | 0 <= j < |Failures(rs)| ::
      1 <= Failures(rs)[j] <= |rs| && rs[Failures(rs)[j] - 1].None?
  {
    if rs != [] {
      var n := |rs|;
      var prefix := rs[..n - 1];
      FailuresBounds(prefix);
      var f := Failures(rs);
      forall j | 0 <= j < |f|
        ensures 1 <= f[j] <= n && rs[f[j] - 1].None?
      {
        if j < |Failures(prefix)| {
          assert rs[f[j] - 1] == prefix[f[j] - 1];
        }
      }
    }
  }

  /** Every successful result is among the survivors. */
  lemma {:induction false} SurvivorsComplete(rs: seq<Option<Record>>, n: nat)
    requires 1 <= n <= |rs| && rs[n - 1].Some?
    ensures exists j | 0 <= j < |Survivors(rs)| :: Survivors(rs)[j] == rs[n - 1].value
  {
    var m := |rs|;
    var prefix := rs[..m - 1];
    var s := Survivors(rs);
    assert s == Survivors(prefix) + if rs[m - 1].Some? then [rs[m - 1].value] else [];
    if n == m {
      assert s[|s| - 1] == rs[n - 1].value;
    } else {
      assert rs[n - 1] == prefix[n - 1];
      SurvivorsComplete(prefix, n);
      var j :| 0 <= j < |Survivors(prefix)| && Survivors(prefix)[j] == prefix[n - 1].value;
      assert s[j] == Survivors(prefix)[j];
    }
  }

  /** Every failed result is among the failures. */
  lemma {:induction false} FailuresComplete(rs: seq<Option<Record>>, n: nat)
    requires 1 <= n <= |rs| && rs[n - 1].None?
    ensures n in Failures(rs)
  {
    var m := |rs|;
    var prefix := rs[..m - 1];
    if n < m {
      assert rs[n - 1] == prefix[n - 1];
      FailuresComplete(prefix, n);
    }
  }

  /** A position is among the survivors' IDs iff its result succeeded, and among the failures iff not. */
  lemma {:induction false} SurvivorsGaps(rs: seq<Option<Record>>, n: nat)
    requires Numbered(rs)
    requires 1 <= n <= |rs|
    ensures rs[n - 1].Some? <==> exists j | 0 <= j < |Survivors(rs)| :: Survivors(rs)[j].id == n
    ensures rs[n - 1].None? <==> n in Failures(rs)
  {
    SurvivorsIds(rs);
    FailuresBounds(rs);
    if rs[n - 1].Some? {
      SurvivorsComplete(rs, n);
    } else {
      FailuresComplete(rs, n);
    }
  }

  /** Every result is accounted for exactly once. */
  lemma {:induction false} SurvivorsCount(rs: seq<Option<Record>>)
    ensures |Survivors(rs)| + |Failures(rs)| == |rs|
  {
    if rs != [] {
      SurvivorsCount(rs[..|rs| - 1]);
    }
  }

  /** IDs are the cards' 1-based positions, strictly increasing, each within 1..total. */
  lemma {:induction false} HarvestIds(cards: seq<Card>)
    ensures |Harvest(cards)| <= |cards|
    ensures IdsIncrease(Harvest(cards))
    ensures forall j | 0 <= j < |Harvest(cards)| :: FromCard(cards, Harvest(cards)[j])
  {
    var rs := Attempts(cards);
    AttemptsNumbered(cards);
    SurvivorsIds(rs);
    forall j | 0 <= j < |Harvest(cards)| ensures FromCard(cards, Harvest(cards)[j]) {
      var r := Harvest(cards)[j];
      assert rs[r.id - 1] == Some(r);
      AttemptIsExtraction(cards, r.id - 1, r);
    }
  }

  /** `r` is what extracting the card at position `r.id` gives. */
  ghost predicate FromCard(cards: seq<Card>, r: Record)
  {
    1 <= r.id <= |cards| && ExtractCard(cards[r.id - 1], r.id) == Some(r)
  }

  lemma {:induction false} AttemptIsExtraction(cards: seq<Card>, i: nat, r: Record)
    requires i < |cards| && Attempts(cards)[i] == Some(r)
    ensures FromCard(cards, r)
  {
  }

  /**
   * Gaps exactly at the failed cards: a card's position appears among the
   * record IDs iff all three of its lookups succeed, and among the warned
   * ordinals iff one of them fails.
   */
  lemma {:induction false} HarvestGapsAtFailures(cards: seq<Card>, n: nat)
    requires 1 <= n <= |cards|
    ensures Readable(cards[n - 1]) <==> exists j | 0 <= j < |Harvest(cards)| :: Harvest(cards)[j].id == n
    ensures !Readable(cards[n - 1]) <==> n in FailedOrdinals(cards)
  {
    var rs := Attempts(cards);
    AttemptsNumbered(cards);
    SurvivorsGaps(rs, n);
    var h := Harvest(cards);
    assert h == Survivors(rs);
    if Readable(cards[n - 1]) {
      var j :| 0 <= j < |Survivors(rs)| && Survivors(rs)[j].id == n;
      assert h[j].id == n;
    }
  }

  /** The warned ordinals are increasing, within 1..total, and name unreadable cards. */
  lemma {:induction false} FailedOrdinalsBounds(cards: seq<Card>)
    ensures OrdinalsIncrease(FailedOrdinals(cards))
    ensures forall j | 0 <= j < |FailedOrdinals(cards)| ::
      1 <= FailedOrdinals(cards)[j] <= |cards| && !Readable(cards[FailedOrdinals(cards)[j] - 1])
  {
    AttemptsNumbered(cards);
    FailuresBounds(Attempts(cards));
  }

  /**
   * Every card is accounted for exactly once, so there are at most as many
   * records as cards, with equality iff no card fails.
   */
  lemma {:induction false} HarvestCount(cards: seq<Card>)
    ensures |Harvest(cards)| + |FailedOrdinals(cards)| == |cards|
    ensures |Harvest(cards)| == |cards| <==> forall i | 0 <= i < |cards| :: Readable(cards[i])
  {
    SurvivorsCount(Attempts(cards));
    FailedOrdinalsBounds(cards);
    if |Harvest(cards)| == |cards| {
      forall i | 0 <= i < |cards| ensures Readable(cards[i]) {
        HarvestGapsAtFailures(cards, i + 1);
      }
    } else {
      assert !Readable(cards[FailedOrdinals(cards)[0] - 1]);
    }
  }

  /* ---------------------------------------------------------------------------
   * The write gate
   * ------------------------------------------------------------------------- */

  /** Which of the two scripts runs: src/scraper_selenium.py or the root scraper_selenium.py. */
  datatype Script = Src | Root

  /** The file's columns, in order; they hold a record's id, title, details and url. */
  const Header: seq<string> := ["ID", "Titulo", "Detalles", "URL"]

  /** What the end of the script does with the records. */
  datatype SinkAction =
    | WriteCsv(header: seq<string>, rows: seq<Record>)  // overwrite the CSV: header row, then one row per record
    | WarnNoData                                       // print the "no data" alert, leave any old file alone
    | Skip                                             // do nothing

  function Persist(records: seq<Record>, script: Script): (a: SinkAction)
    ensures a.WriteCsv? <==> records != []
    ensures a.WriteCsv? ==> a.header == Header && a.rows == records
    ensures a.WarnNoData? <==> records == [] && script == Src
  {
    if records != [] then WriteCsv(Header, records)
    else if script == Src then WarnNoData
    else Skip
  }

  /** How a run ends. */
  datatype RunOutcome =
    | GateTimeout   // the card marker never appeared within the 20-second wait: nothing is written
    | Completed(total: nat, records: seq<Record>, failed: seq<nat>, sink: SinkAction)

  /**
   * One run of a script. `snapshot` is the cards found after the wait, or
   * `None` when the wait timed out (the exception then leaves the script after
   * the browser is closed).
   */
  method Run(snapshot: Option<seq<Card>>, script: Script) returns (o: RunOutcome)
    ensures o.GateTimeout? <==> snapshot.None?
    ensures snapshot.Some? ==>
      && o.Completed? && o.total == |snapshot.value|
      && o.records == Harvest(snapshot.value) && o.failed == FailedOrdinals(snapshot.value)
      && o.sink == Persist(o.records, script)
  {
    match snapshot
    case None =>
      o := GateTimeout;
    case Some(cards) =>
      var records, failed := ExtractCards(cards);
      o := Completed(|cards|, records, failed, Persist(records, script));
  }

  /** A file is written exactly when some card could be read. */
  lemma {:induction false} WrittenIffSomeCardReadable(cards: seq<Card>, script: Script)
    ensures Persist(Harvest(cards), script).WriteCsv?
      <==> exists i | 0 <= i < |cards| :: Readable(cards[i])
  {
    if Harvest(cards) != [] {
      HarvestHasReadable(cards);
    }
    if i :| 0 <= i < |cards| && Readable(cards[i]) {
      HarvestGapsAtFailures(cards, i + 1);
    }
  }

  lemma {:induction false} HarvestHasReadable(cards: seq<Card>)
    requires Harvest(cards) != []
    ensures exists i | 0 <= i < |cards| :: Readable(cards[i])
  {
    var rs := Attempts(cards);
    AttemptsNumbered(cards);
    SurvivorsIds(rs);
    var id := Survivors(rs)[0].id;
    assert rs[id - 1].Some?;
    assert Readable(cards[id - 1]);
  }
}
