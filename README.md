# WiFi auditor: classifier and output parsers

`wifi_auditor.py` is an interactive console tool. It runs the system's wireless utilities (`ip link show`, `iwlist scan`, `nmcli`), reads what they print, and classifies the networks it finds by how strong their encryption is. Almost all of the program is subprocess calls, prints and prompts. This model keeps the deterministic string processing inside that glue and proves what it computes:

- **Security classifier** (`Security.Assess`): `assess_security_level`. It upper-cases a descriptor and tests for substrings in a fixed priority order: WPA3, WPA2 with AES, WPA2, WPA, WEP, OPEN or empty, and otherwise unknown. The first test that matches wins. There are seven levels, and `Security.Label` gives each one its exact label string.
- **Recommendation selector** (`Security.Advice`): `show_security_recommendations`. It returns the lines the function prints, one `Tip` per line. `Security.Text` gives each line's exact text.
- **ESSID listing** (`Essid.ListNetworks`): the loop of `scan_networks`. `alternative_scan` repeats the same test and extraction (wifi_auditor.py:305-308) and differs only in what it prints. From each line it takes the text after the first `ESSID:`, then strips whitespace and then double quotes. It drops empty names and keeps at most five.
- **nmcli row analysis** (`Nmcli.AnalyzeNetworks`): the loop of `analyze_network_security`. It skips the header line and takes at most ten non-blank rows. It splits each row on whitespace into an SSID and a security column, then assesses the security and picks its advice.
- **Interface labelling** (`Interfaces.CheckInterfaces`): the loop of `check_interfaces`. It labels each line wireless, wired or loopback, taking the first test that matches, and keeps the flag `wireless_found`.

A command's output becomes a `string` parameter of the parser. Each thing the loops print, in print order, becomes the sequence a method returns.

The loops are `while` loops in methods. Each is proved against a specification function. For the ESSID and nmcli loops that function is `Seqs.Collected`: the results of the kept lines, collected until the limit is reached. For the interface loop it is `Seqs.Gathered`. Lemmas beside each loop state what the specification means: which lines contribute, in which order, and how much.

The Python `str` operations involved (`in`, `upper`, `lower`, `strip`, `split(sep)`, `split()`, `join`) are defined in module `PyStr`. Each one comes with lemmas that say what it means without reference to how it is computed. For example:

- splitting and then re-joining gives back the original string;
- no piece of a split contains the separator;
- `strip` leaves a contiguous slice, with only dropped characters around it;
- `split()` of words separated by any runs of whitespace gives back those words, and every string with a word is its `split()` words separated by runs of whitespace, with whitespace around them; a string without words is all whitespace.

Files:

- `pystr.dfy`: the Python string operations;
- `seqs.dfy`: the filter, map and limit shapes the loops share;
- `security.dfy`: the classifier and the advice;
- `essid.dfy`, `nmcli.dfy`, `interfaces.dfy`: the three parsers.

Three behaviours of the code are easy to miss, and the model keeps them:

- **A blank descriptor is not treated as empty.** Only the empty string is VERY WEAK. A descriptor made only of whitespace is not empty, so it passes every test and is "Check Manually" (`Security.BlankIsCheckManually`).
- **AES does not change the advice.** Every WPA2 descriptor without WPA3 gets the same two "upgrade to WPA3" lines, with or without AES, although AES splits the level into Good and Acceptable (`Security.Wpa2GetsUpgradeAdvice`).
- **The signal column is not kept.** With three or more tokens the last one (the signal) is dropped; a two-token row keeps both tokens as SSID and security, and a one-token row becomes ("Hidden", "Unknown"). So `Nmcli.Network` has only the SSID and the security column.

## Model

| member | source | states |
|---|---|---|
| Security.Assess | wifi_auditor.py:248-265 | `assess_security_level` as a function to `Level`; its behaviour is stated by `Security.AssessMatchesRules` and the lemmas below it. |
| Security.Label | wifi_auditor.py:252-265 | The exact returned string of each level; `Security.LabelInjective` states that distinct levels print distinct labels. |
| Security.AssessMatchesRules | wifi_auditor.py:250-265 | A descriptor gets a level exactly when that level's rule holds of its upper-cased form. The rules form a decision table of disjoint conditions, so first-match priority is reflected in what each rule excludes. |
| Security.AssessIgnoresCase | wifi_auditor.py:250 | A descriptor and its upper-cased form get the same level. |
| Security.StrongOrMediumIffWpa | wifi_auditor.py:252-259 | The level is STRONG or MEDIUM exactly when the upper-cased descriptor contains "WPA" (which covers WPA2 and WPA3). So any descriptor naming WPA2 is never WEAK, whatever else it names. |
| Security.WeakIffWepOnly | wifi_auditor.py:258-261 | The level is WEAK exactly when the upper-cased descriptor contains "WEP" and no "WPA". |
| Security.WepWpa2IsAcceptable | wifi_auditor.py:254-261 | "WEP WPA2" is MEDIUM (Acceptable), because the WPA2 test comes before the WEP test. |
| Security.EmptyIsNoSecurity | wifi_auditor.py:262-263 | The empty descriptor is VERY WEAK (No Security). |
| Security.BlankIsCheckManually | wifi_auditor.py:262-265 | A non-empty descriptor made only of whitespace is UNKNOWN (Check Manually). |
| Security.NoKnownTokenIsCheckManually | wifi_auditor.py:264-265 | A non-empty descriptor whose upper-cased form contains none of WPA, WEP and OPEN is Check Manually. |
| Security.UnknownIsCheckManually | wifi_auditor.py:216-220 | The "Unknown" security column given to a hidden network is assessed as Check Manually. |
| Security.LabelInjective | wifi_auditor.py:252-265 | The seven label strings are pairwise distinct, so a label determines its level. |
| Security.WpaFamily | wifi_auditor.py:252-259 | A descriptor containing "WPA2" or "WPA3" contains "WPA", which is why the WPA test stands for the whole family once WPA2 and WPA3 have been ruled out. |
| Security.Advice | wifi_auditor.py:267-291 | `show_security_recommendations` as the list of lines it prints; stated by `Security.AdviceFollowsLevel`, `Security.AdviceLines` and `Security.Wpa2GetsUpgradeAdvice`. |
| Security.Text | wifi_auditor.py:272-291 | The exact printed text of each line, its kind's prefix followed by its message; `Security.TipPrefix` and `Security.AdviceLines` state its shape. |
| Security.AdviceLines | wifi_auditor.py:271-291 | Every branch prints one or two lines: first a "Recommendation:" line, then, in all but the WPA3 branch and the last branch, one "Action:" line. |
| Security.TipPrefix | wifi_auditor.py:272-291 | Each line starts with the prefix of its kind, "Recommendation:" or "Action:", with its emoji and indentation. |
| Security.AdviceFollowsLevel | wifi_auditor.py:267-291 | The recommendation lines for a descriptor are those of the level `assess_security_level` gives it. Good and Acceptable share the WPA2 lines, and every other level has lines of its own. |
| Security.Wpa2GetsUpgradeAdvice | wifi_auditor.py:274-276 | Every descriptor with WPA2 and without WPA3, with or without AES, gets the two "upgrade to WPA3" lines, while its level is Good or Acceptable. |
| Security.AdviceIgnoresCase | wifi_auditor.py:269 | A descriptor and its upper-cased form get the same recommendations. |
| Security.SharpSIsAcceptable | wifi_auditor.py:250-258 | "wpa2 aeß" upper-cases to "WPA2 AEß" in the model and is Acceptable; this is the case-mapping gap recorded under "## Left out". |
| Security.UpperOfUpperCase | wifi_auditor.py:250 | Upper-casing a string without lower-case letters leaves it unchanged. |
| Essid.ListNetworks | wifi_auditor.py:70-78 | The names printed are the first five of the names on offer, in line order: all of them when there are at most five, otherwise exactly the first five. There are at most five, and none is empty. |
| Essid.ListNames | wifi_auditor.py:73-78 | The loop (counter `networks_found`, bound of 5, skipping empty names) returns exactly what the collect-until-limit specification holds after every line. |
| Essid.FieldIsBetweenMarkers | wifi_auditor.py:75 | `line.split('ESSID:')[1]` is the text right after the first marker. It holds no marker, and it is followed by the end of the line or by another marker. |
| Essid.Essid | wifi_auditor.py:75 | `line.split('ESSID:')[1].strip().strip('"')`; stated by `Essid.FieldIsBetweenMarkers` and `Essid.EssidIsCleaned`. |
| Essid.EssidIsCleaned | wifi_auditor.py:75 | The name is a contiguous piece of the field with no double quote at either end, and only whitespace and double quotes are cut off around it. Whitespace inside the quotes survives, because the quotes are stripped second. |
| Essid.Name | wifi_auditor.py:74-76 | The name a line offers: the cleaned field when the line has the marker, otherwise nothing; stated by `Essid.NamesComeFromListedLines` and `Essid.UnlistedLineAddsNothing`. |
| Essid.NamesComeFromListedLines | wifi_auditor.py:74-77 | The k-th name on offer is the cleaned name of the k-th line that has the marker and a non-empty name, so no name is empty. |
| Essid.UnlistedLineAddsNothing | wifi_auditor.py:74-76 | A line without the marker, or whose name strips to nothing, adds no name. |
| Essid.AllNamesAppend | wifi_auditor.py:73-78 | Names are listed in line order: the names of two parts of the output in a row are the names of the first part followed by those of the second. |
| Essid.NoListedLineNoNames | wifi_auditor.py:80 | Output with no listed line gives the empty listing (the "no networks found" path). |
| Nmcli.AnalyzeNetworks | wifi_auditor.py:205-227 | The reports are the first ten reports of the rows after the header line. Each report's level is the assessment of its own security column, and its advice is that level's advice. |
| Nmcli.AnalyzeRows | wifi_auditor.py:208-210 | The row loop (counter `networks_found`, bound of 10, skipping blank rows) returns exactly what the collect-until-limit specification holds after every row. |
| Nmcli.AnalyzeRow | wifi_auditor.py:211-227 | The loop body builds the row's report: its columns, its level and the recommendations `show_security_recommendations` picks for the same security column. |
| Nmcli.FilledIffStripNonEmpty | wifi_auditor.py:209 | The rows the loop analyses are exactly those whose `line.strip()` is non-empty, that is, those with a non-whitespace character. |
| Nmcli.ReportsComeFromRows | wifi_auditor.py:208-227 | There is one report per non-blank row, in row order. Each report is that row's analysis. |
| Nmcli.Analyse | wifi_auditor.py:211-227 | The report of one row: its columns, its level and its advice; stated by `Nmcli.AnalyzeRow` and `Nmcli.ReportsComeFromRows`. |
| Nmcli.ParseRow | wifi_auditor.py:211-217 | The (ssid, security) pair of a row; stated by `Nmcli.RowByTokens`, `Nmcli.AlignedRowParses` and `Nmcli.SsidWithSpaceIsSplit`. |
| Nmcli.Columns | wifi_auditor.py:212-217 | The column choice on the row's tokens; stated by `Nmcli.ColumnsByCount`. |
| Nmcli.RowByTokens | wifi_auditor.py:211-217 | For a row of words separated by runs of whitespace of any widths, with any whitespace around them (the shape of every non-blank row, by `PyStr.WordsCover`): one token gives ("Hidden", "Unknown"); two tokens give (t0, t1); three or more give t0 and the middle tokens joined by " ", dropping the last token. The security column then splits back into exactly the middle tokens. |
| Nmcli.ColumnsByCount | wifi_auditor.py:212-217 | The column choice by token count, stated on the token list. |
| Nmcli.PaddedRowTokens | wifi_auditor.py:211 | `line.strip().split()` of words separated by runs of whitespace, with whitespace around them, is exactly those words, however wide the runs. |
| Nmcli.StripBeforeSplitIsRedundant | wifi_auditor.py:211 | `line.strip().split()` equals `line.split()` for every row: the strip before the split changes nothing. |
| Nmcli.AlignedRowParses | wifi_auditor.py:211-214 | The column-aligned row "MyNet   WPA2   70" parses as SSID "MyNet" with security "WPA2". |
| Nmcli.HeaderIgnored | wifi_auditor.py:208 | Outputs that differ only in their first line are analysed alike: the header is never parsed. |
| Nmcli.HeaderOnlyGivesNothing | wifi_auditor.py:205-229 | Output of a single line gives no reports (the fallback path). |
| Nmcli.BlankRowAddsNothing | wifi_auditor.py:209 | A blank row produces no report and does not count toward the limit. |
| Nmcli.HiddenRowIsCheckManually | wifi_auditor.py:215-220 | A one-token row is the "Hidden" network with security "Unknown", which is assessed as Check Manually. |
| Nmcli.SsidWithSpaceIsSplit | wifi_auditor.py:211-214 | The row "My Net WPA2 70" is read as SSID "My" with security "Net WPA2". The column split cannot keep a space inside an SSID. |
| Interfaces.CheckInterfaces | wifi_auditor.py:107-117 | The printed lines are the labelled lines of the output, in order, each stripped. `wireless_found` is true exactly when some line contains "wl". |
| Interfaces.LabelLines | wifi_auditor.py:110-117 | The loop returns the gathered entries of all the lines, and its flag is set exactly when one of them contains "wl". |
| Interfaces.KindOf | wifi_auditor.py:111-117 | The label of one line by the first matching test; stated by `Interfaces.KindRules`. |
| Interfaces.KindRules | wifi_auditor.py:111-117 | A line is wireless exactly when it contains "wl". It is wired exactly when it does not, but contains "eth" or, in any case, "ethernet". It is loopback exactly when it contains none of these but contains "lo:". So each line gets at most one label, in that priority. |
| Interfaces.WlanIsWl | wifi_auditor.py:111 | A line containing "wlan" contains "wl": the second test of the wireless branch adds nothing. |
| Interfaces.WirelessStep | wifi_auditor.py:111-113 | The flag after one more line is set exactly when it was set before or that line takes the wireless branch. It is never cleared. |
| Interfaces.WirelessFoundIffWirelessEntry | wifi_auditor.py:110-119 | `wireless_found` holds exactly when some printed line is labelled wireless. |
| Interfaces.CapitalisedEthernetIsWired | wifi_auditor.py:114 | A line with "Ethernet" in it and no "wl" is wired, because the test looks in the lower-cased line. |
| Interfaces.LowerKeepsContains | wifi_auditor.py:114 | Lower-casing keeps an occurrence of a substring in place. |
| PyStr.Find | wifi_auditor.py:75 | The search that `PyStr.Split` is built on (`split('ESSID:')` here). `find` returns a position exactly when the pattern occurs. The position is the first occurrence. |
| PyStr.Split | wifi_auditor.py:75 | `split(sep)` gives at least one piece, and at least two exactly when `sep` occurs. |
| PyStr.SplitJoin | wifi_auditor.py:70 | Joining the pieces of `split(sep)` back with `sep` gives the original string. |
| PyStr.SplitPiecesFree | wifi_auditor.py:75 | No piece of `split(sep)` contains `sep`. |
| PyStr.SplitSecond | wifi_auditor.py:75 | The second piece of a split lies between the first occurrence of the separator and the next one, or the end. |
| PyStr.SplitAfterFirst | wifi_auditor.py:205 | Splitting at a newline that ends the first line peels exactly that line off. |
| PyStr.Contains | wifi_auditor.py:74 | Python's `p in s`; stated by `PyStr.ContainsIff`. |
| PyStr.ContainsIff | wifi_auditor.py:74 | `p in s` holds exactly when `p` occurs at some position of `s`. |
| PyStr.ContainsTrans | wifi_auditor.py:111 | A string containing `p` contains everything that `p` contains. |
| PyStr.Upper | wifi_auditor.py:250 | `str.upper()`; stated by `PyStr.UpperChars` and `PyStr.UpperIdempotent`. |
| PyStr.UpperChars | wifi_auditor.py:250 | `upper()` keeps the length, maps each character by the ASCII upper-case mapping, and leaves no lower-case letter. |
| PyStr.Lower | wifi_auditor.py:114 | `lower()` keeps the length, maps each character by the ASCII lower-case mapping, and leaves no upper-case letter. |
| PyStr.UpperIdempotent | wifi_auditor.py:250 | Upper-casing twice is upper-casing once. |
| PyStr.FirstKeptIsFirst | wifi_auditor.py:75 | The left end of `strip` is the first character that is not stripped. |
| PyStr.LastKeptIsLast | wifi_auditor.py:75 | The right end of `strip` is just after the last character that is not stripped. |
| PyStr.Strip | wifi_auditor.py:75 | `str.strip(chars)`; stated by `PyStr.StripSlice`, `PyStr.StripEmpty` and `PyStr.StripPadded`. |
| PyStr.StripSlice | wifi_auditor.py:75 | `strip` leaves a contiguous slice, with only stripped characters around it, that neither starts nor ends with a stripped character. |
| PyStr.StripEmpty | wifi_auditor.py:209 | `strip` leaves nothing exactly when every character is stripped. |
| PyStr.StripTwice | wifi_auditor.py:75 | Stripping one set of characters and then another leaves a contiguous piece, with only characters of either set cut off around it and none of the second set at its ends. |
| PyStr.StripPadded | wifi_auditor.py:211 | Stripping text padded with stripped characters gives the text back, provided it does not start or end with one. |
| PyStr.Words | wifi_auditor.py:211 | `str.split()` with no argument; stated by `PyStr.WordsAreWords`, `PyStr.WordsOfInterleave` and `PyStr.WordsCover`. |
| PyStr.WordsAreWords | wifi_auditor.py:211 | Every piece of `split()` is non-empty and free of whitespace. |
| PyStr.WordsOfJoin | wifi_auditor.py:211-214 | `split()` of words joined by single spaces gives back those words, so the security column `" ".join(parts[1:-1])` splits back into the middle tokens. |
| PyStr.WordsOfInterleave | wifi_auditor.py:211 | `split()` of words separated by non-empty runs of whitespace, of any widths, gives back those words. |
| PyStr.WordsCover | wifi_auditor.py:211 | Conversely, every string with at least one word is its `split()` words separated by non-empty runs of whitespace, with whitespace before and after. So `split()` finds the maximal runs of non-whitespace and nothing else. |
| PyStr.WordsSkipSpace | wifi_auditor.py:211 | `split()` skips leading whitespace. |
| PyStr.TrailingSpace | wifi_auditor.py:211 | A string that splits into no words is all whitespace. |
| PyStr.InterleaveEnds | wifi_auditor.py:211 | Words separated by gaps start with the first word's first character and end with the last word's last character. |
| PyStr.Join | wifi_auditor.py:214 | `sep.join(ps)`; stated by `PyStr.SplitJoin` and `PyStr.WordsOfJoin`. |
| PyStr.LeadingWord | wifi_auditor.py:211 | The first run of `split()` is the longest whitespace-free prefix. |
| Seqs.Positions | wifi_auditor.py:73-76 | The positions of the kept elements are in range, increasing, and each satisfies the test. |
| Seqs.PositionsComplete | wifi_auditor.py:73-76 | Every kept element's position is among the positions. |
| Seqs.CollectedIsTake | wifi_auditor.py:208-210 | A loop that collects kept elements until a limit holds the first `n` of everything gathered without the limit. |
| Seqs.CollectedTakes | wifi_auditor.py:209-210 | A kept element below the limit is appended. |
| Seqs.CollectedPasses | wifi_auditor.py:209 | An element that is not kept, or one that comes after the limit, leaves the collection as it was. |
| Seqs.GatheredAt | wifi_auditor.py:73-78 | The k-th gathered result is the image of the k-th kept element. |
| Seqs.GatheredAppend | wifi_auditor.py:73-78 | Gathering over two parts in a row is gathering over each, concatenated. |
| Seqs.GatheredNone | wifi_auditor.py:80 | Nothing is gathered when no element is kept. |
| Seqs.TakeAppend | wifi_auditor.py:74 | Appending extends the first `n` elements only while there are fewer than `n`. |

## Left out

- Subprocess calls (`iw dev`, `iwlist scan`, `nmcli`, `iw list`, `ip link show`), exit-status checks, timeouts and exception handlers. These are operating-system behaviour. Each parser takes the command's standard output as a string instead.
- The nmcli fallbacks to `alternative_scan`, on failure and on zero networks. The model gives the empty result that triggers the fallback (`Nmcli.HeaderOnlyGivesNothing`), not the call itself. The loop of `alternative_scan` (wifi_auditor.py:304-309) makes the same test and extraction as the loop of `scan_networks` and differs only in what it prints, so `Essid.ListNetworks` models the names both list.
- `check_root`, the menus and `input()` prompts, and the banner, guide and about text. These are operating-system calls, console I/O and constant prints.
- The `'Interface' in stdout` and `"monitor" in lower` tests. Each is a single containment test on command output, and `PyStr.Contains` is that test.
- Print formatting: the numbering of names, the emoji prefixes, the separator lines and the remediation hints. The model returns what is printed as values. `Security.Label` and `Security.Text` hold the exact strings of levels and recommendation lines.
- PyStr.Upper and PyStr.Lower: only ASCII letters change case, while Python's `str.upper()` and `str.lower()` map all of Unicode. Descriptors are matched only against the ASCII tokens WPA3, WPA2, AES, WPA, WEP, OPEN and "ethernet", but a non-ASCII character whose Python case mapping gives ASCII letters is not modelled. For example Python upper-cases "ß" to "SS" and "ſ" to "S", so "wpa2 aeß" becomes "WPA2 AESS" there and is Good, while the model leaves "ß" alone and gives Acceptable (`Security.SharpSIsAcceptable`).
- Nmcli.AnalyzeRows and Essid.ListNames: the counter `networks_found` is kept and proved equal to the number of results. It is not returned, because the source uses it only for the zero test and the limit.
- Interfaces.LabelLines: a line is printed as its label and its stripped text (`Interfaces.Entry`); the emoji that stands for the label is not modelled.
