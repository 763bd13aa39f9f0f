# engVid lesson scraper and level splitter — a Dafny model

The repository scrapes the engVid lesson index with a browser and then post-processes the resulting CSV
file. This project models the deterministic core of that pipeline and proves its properties.

- **Details cleanup.** Each lesson card's category/level text is cleaned by
  `info.replace("\n", " | ").replace("•", "").strip()`. This is `Scraper.CleanDetails`, built on
  `Text.Strip`, which follows Python's `str.strip()` and its whitespace table.
- **Per-card extraction loop.** Both scraper scripts walk the cards with a 1-based ordinal. A card yields a
  record `{ID, Titulo, Detalles, URL}` only when its title, link and details lookups all succeed. A
  failing card is reported and skipped, and the loop goes on. `Scraper.ExtractCards` is an imperative
  method with a loop. It is proved equal to the specification functions `Scraper.Harvest` (the records)
  and `Scraper.FailedOrdinals` (the cards that were warned about).
- **Write gate.** The CSV is written, with the fixed header `ID, Titulo, Detalles, URL`, only when at
  least one record exists. With no records, src/scraper_selenium.py prints an alert and the root
  scraper_selenium.py does nothing. `Scraper.Persist` covers both scripts through a `Script` parameter.
  `Scraper.Run` chains the loop and the gate.
- **Level splitter** (src/procesar_data.py). It uses the pattern `(\d+-)?(Intermediate|Beginner|Advanced)`.
  - `Nivel` is the label captured by the leftmost match, or "Unspecified".
  - `Detalles` loses every match of one left-to-right pass, is stripped, and has each run of two or more
    whitespace characters replaced by one space.
  - The matcher (`LevelSplitter.MatchHere`) is written by hand for this fixed pattern. `\d` is Python's
    Unicode decimal digit, and the digit run is greedy and must be followed by a hyphen.

The browser is abstracted away:

- a card is a value whose three lookups are `Option`s;
- the page snapshot is `Option<seq<Card>>`, where `None` means the 20-second wait timed out.

Files:

- `wrappers.dfy` holds `Option`.
- `text.dfy` holds Python whitespace and `strip`.
- `scraper.dfy` models both scraper scripts.
- `level_splitter.dfy` models src/procesar_data.py.

The comments at src/procesar_data.py:26-27 say the pattern also takes a `Nivel-`/`Level-` prefix and
"0 or 1 digit". The code's pattern does neither: the prefix is not matched, and one or more digits are
taken. The model follows the code (`LevelSplitter.LevelPrefixExample`, `LevelSplitter.MatchHereIsPattern`).

## Model

| member | source | states |
|---|---|---|
| Text.Strip | src/scraper_selenium.py:101 | `str.strip()`: the result has no whitespace at either end and is no longer than the input |
| Text.StripIsSlice | src/scraper_selenium.py:101 | the stripped text is a contiguous slice of the input, and everything cut off on both sides is whitespace |
| Text.StripFixedPoint | src/procesar_data.py:42 | stripping leaves a text unchanged exactly when it has no edge whitespace |
| Scraper.ReplaceChar | src/scraper_selenium.py:101 | `str.replace` of one character: a text without that character is unchanged, and a replacement without it removes it everywhere |
| Scraper.CleanDetails | src/scraper_selenium.py:101 | the cleaned details contain no line break and no bullet and have no leading or trailing whitespace (the same expression is at scraper_selenium.py:75) |
| Scraper.ReplaceChainIsCharImage | src/scraper_selenium.py:101 | the two `replace` calls equal a character-by-character rewrite: each line break becomes " \| ", each bullet vanishes, every other character is kept in order |
| Scraper.CleanDetailsIsStrippedImage | src/scraper_selenium.py:101 | apart from the stripped edges, the output is exactly that rewrite of the input |
| Scraper.CleanDetailsIdempotent | scraper_selenium.py:75 | cleaning already-cleaned text returns it unchanged (the same expression is at src/scraper_selenium.py:101) |
| Scraper.CleanDetailsJoinsLines | src/scraper_selenium.py:101 | two clean lines separated by a line break are joined by " \| " |
| Scraper.CleanDetailsKeepsSpaceAfterBullet | src/scraper_selenium.py:101 | a bullet that opens a line is deleted, but the space after it stays, so two spaces follow the bar |
| Scraper.ExtractCard | src/scraper_selenium.py:87-110 | a card gives a record iff its title, link and details lookups all succeed; the record holds the ordinal, the title, the cleaned details and the href |
| Scraper.Attempts | src/scraper_selenium.py:86 | the card at 0-based position i is tried under the ordinal i + 1, in card order |
| Scraper.ExtractCards | src/scraper_selenium.py:86-120 | the loop's appended records are `Harvest(cards)` and its warned ordinals are `FailedOrdinals(cards)`; a failing card does not stop the loop (scraper_selenium.py:60-93 is the same loop) |
| Scraper.HarvestIds | src/scraper_selenium.py:86-110 | record IDs are strictly increasing, each ID lies in 1..total, and each record is what its own card at position ID extracts to (also for scraper_selenium.py:60-83) |
| Scraper.HarvestGapsAtFailures | scraper_selenium.py:60-93 | a position appears among the record IDs iff that card is readable, and among the warned ordinals iff it is not: the gaps are exactly at the failed cards (likewise at src/scraper_selenium.py:86-120) |
| Scraper.FailedOrdinalsBounds | src/scraper_selenium.py:117-120 | the warned ordinals are strictly increasing, lie in 1..total, and name unreadable cards |
| Scraper.HarvestCount | src/scraper_selenium.py:81-120 | records plus failures make up all the cards, so there are at most as many records as cards, with equality iff no card fails |
| Scraper.Persist | src/scraper_selenium.py:126-147 | the file is written iff the record list is non-empty, with header exactly ID, Titulo, Detalles, URL and the rows in record order; the "no data" alert is given iff the list is empty; scraper_selenium.py:96-108 writes under the same gate and header and, with no records, neither writes nor warns |
| Scraper.Run | src/scraper_selenium.py:73-147 | a timed-out wait writes nothing; otherwise the run reports the card total, the loop's records and failures, and the gate's action on those records |
| Scraper.WrittenIffSomeCardReadable | scraper_selenium.py:96-108 | in either script, the file is written exactly when at least one card can be read (src/scraper_selenium.py:126) |
| LevelSplitter.DigitRun | src/procesar_data.py:34 | `\d+` taken greedily: the run ends at the end of the text or at the first character that is not a Unicode decimal digit |
| LevelSplitter.LabelAt | src/procesar_data.py:34 | the alternation `Intermediate\|Beginner\|Advanced` succeeds at the start of a text iff one of the labels begins it, and returns that label |
| LevelSplitter.MatchHere | src/procesar_data.py:34 | the pattern tried at one position; a match lies inside the text and its capture is one of the three labels |
| LevelSplitter.MatchHereIsPattern | src/procesar_data.py:34 | the matcher finds a match iff some prefix is in the pattern's language (a bare label, or one or more digits, a hyphen and a label); that prefix is unique, and the capture is its tail |
| LevelSplitter.MatchedLabelIsFirst | src/procesar_data.py:34 | within a match no label starts before the captured one |
| LevelSplitter.SearchFrom | src/procesar_data.py:38 | the search returns the first position at or after p where the pattern matches, or reports that none does |
| LevelSplitter.Nivel | src/procesar_data.py:38 | `Nivel` is always Intermediate, Beginner, Advanced or Unspecified, and a missing cell gives Unspecified |
| LevelSplitter.NivelIsEarliestLabel | src/procesar_data.py:34-38 | `Nivel` is Unspecified iff no label occurs in the text; otherwise it is the label whose occurrence starts earliest |
| LevelSplitter.FoundLabelIsFirst | src/procesar_data.py:38 | the label captured by the leftmost match starts before any other label occurrence |
| LevelSplitter.SubFrom | src/procesar_data.py:42 | `re.sub` with an empty replacement from position p, resuming after each match; the result is never longer than the text |
| LevelSplitter.SubFromIsScan | src/procesar_data.py:42 | the search-and-remove pass equals a position-by-position scan that skips the match starting at each position and keeps every other character in order |
| LevelSplitter.RemoveAllIsScan | src/procesar_data.py:42 | the removal of the whole text is that scan from its start |
| LevelSplitter.RemoveAllChangesIffMatch | src/procesar_data.py:42 | the removal changes the text iff the pattern matches somewhere in it |
| LevelSplitter.RemoveAllSplitsAtFirst | src/procesar_data.py:38-42 | capture one, remove all: `Nivel` is the leftmost match's label, while the removal cuts out that match and then goes on removing the later matches |
| LevelSplitter.SingleMatchSplit | src/procesar_data.py:34-42 | a text with a single match, nothing matching before it and only inert characters after it, gets that match's label and loses exactly the match |
| LevelSplitter.Collapse | src/procesar_data.py:42 | `re.sub(r'\s{2,}', ' ')`: the result is empty iff the input is, and no longer than it |
| LevelSplitter.CollapseRun | src/procesar_data.py:42 | a run of two or more whitespace characters between non-whitespace text becomes exactly one `' '`, and the text on each side is collapsed on its own |
| LevelSplitter.CollapseLoneSpace | src/procesar_data.py:42 | a single whitespace character between non-whitespace text is kept as it is (`{2,}` does not match it) |
| LevelSplitter.CollapseAppend | src/procesar_data.py:42 | text ending in a non-whitespace character collapses independently of what follows it |
| LevelSplitter.CollapseEdges | src/procesar_data.py:42 | the collapsed text starts (ends) with whitespace exactly when the input does |
| LevelSplitter.CollapseKeepsStripped | src/procesar_data.py:42 | collapsing stripped text keeps it stripped, so the order strip-then-collapse leaves no edge whitespace |
| LevelSplitter.CollapseNoDoubleSpace | src/procesar_data.py:42 | after collapsing, no two whitespace characters are adjacent |
| LevelSplitter.CollapseKeepsVisible | src/procesar_data.py:42 | collapsing keeps every non-whitespace character, in order |
| LevelSplitter.CollapseUnchanged | src/procesar_data.py:42 | text without adjacent whitespace is left unchanged |
| LevelSplitter.CleanDetalles | src/procesar_data.py:42 | the new `Detalles` is missing iff the old one was; otherwise it has no edge whitespace and no two adjacent whitespace characters |
| LevelSplitter.CleanDetallesWithoutMatch | src/procesar_data.py:42 | without a match, `Detalles` changes only by trimming its ends and turning whitespace runs into one space |
| LevelSplitter.NumberedLevelExample | src/procesar_data.py:34-42 | "2-Intermediate Grammar" gives Nivel "Intermediate" and Detalles "Grammar" |
| LevelSplitter.TwoLevelsExample | src/procesar_data.py:38-42 | "Beginner to Advanced" gives Nivel "Beginner", yet both levels are removed and Detalles becomes "to" |
| LevelSplitter.LevelPrefixExample | src/procesar_data.py:34-42 | "Level-Beginner Grammar" gives Nivel "Beginner" and Detalles "Level- Grammar": the prefix is not part of the match |
| LevelSplitter.SinglePassExample | src/procesar_data.py:42 | the removal is a single pass: "BeginAdvancedner" loses "Advanced" and keeps "Beginner", although the pattern matches that again |
| LevelSplitter.ProcessTable | src/procesar_data.py:38-42 | the row count and the other columns are unchanged; each row's Nivel is `Nivel` of its Detalles (the earliest label, or Unspecified) and its new Detalles is `CleanDetalles` of the old one; hence Nivel is one of the four values, a missing Detalles stays missing and gives Unspecified, and a present one is stripped with no double whitespace |

## Left out

- Browser control is not modelled. This covers Chrome and its driver, `driver.get` and `find_elements`/`find_element` (src/scraper_selenium.py:53-79 and scraper_selenium.py:27-53). A card is a value whose three lookups either give a value or fail. The page snapshot is given as a parameter.
- The 20-second `WebDriverWait` is not modelled as a clock. Its outcome is the snapshot's `None`, which makes `Scraper.Run` end with `GateTimeout`.
- `driver.quit()` in the `finally` blocks is not modelled, because it only releases the browser.
- The text of each printed error is not modelled. In the source, a card's lookup may raise any exception; the model keeps only which cards fail, as `Scraper.FailedOrdinals`.
- The `utf-8-sig` encoding and the CSV quoting are not modelled. They are done by `csv.DictWriter`, whose code is not part of this model. `Scraper.Persist` returns the header and the rows as data.
- `pd.read_csv` and its latin-1 fallback (src/procesar_data.py:12-16) are not modelled. A row arrives already parsed as `LevelSplitter.Row`, and a NaN text cell is `None`.
- Building the output paths with `os.path` (src/scraper_selenium.py:27-37, src/procesar_data.py:7-9) is file-system plumbing and is not modelled.
- Console output is not modelled: the progress lines every 200 cards, the banners, the pandas display options and `df.head(50)` (src/procesar_data.py:18-19, 48-49).
- `Scraper.Run` models a run that reaches the write gate. It does not model an exception outside the per-card `try`, other than the wait timing out.
- The regular-expression engine is not modelled in general. Only the two fixed patterns of src/procesar_data.py:34 and 42 are written out. `\s` and `str.strip()` follow Python's whitespace table, and `\d` follows the decimal digits of Unicode 15.0/15.1, the table of Python 3.12 and 3.13. Python 3.11 and earlier lack the Kawi and Nag Mundari digits (U+11F50, U+1E4F0); Python 3.14 (Unicode 16.0) has further digit blocks that the model does not treat as digits.
- LevelSplitter.ProcessTable: assumes pandas reads the `Detalles` column as text. When no cell of a non-empty column holds a non-numeric string (every cell empty/NaN, say), pandas infers a float or integer column and the `.str` accessor at src/procesar_data.py:38 raises `AttributeError`; the model instead yields Unspecified rows. pandas' dtype inference is not modelled.
