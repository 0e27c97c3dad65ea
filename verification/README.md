# Agri-AI-Assistant: the text-handling core, in Dafny

Agri-AI-Assistant is a React front end for farmers. Most of its screens send
an image or a question to a generative model. They then turn the model's
free-text reply into what the screen shows. This project models that core:

- the two line-oriented report parsers: `parseAIResult` in the disease scanner
  and `parseNutrientResult` in the nutrient analyser;
- the three `cleanText` variants that strip Markdown from replies;
- the soil report's section split into cards (`formatSoilData`, `getIcon`);
- the CCTV monitor's handling of a detection reply (`processAIDetection`),
  including the ten-entry alert log, and its start, stop, scan and clear-log
  actions;
- the chat bot's send, translate and clear actions, and its greeting;
- the garden guide's search and follow-up chat, whose prompt carries the
  first 500 characters of the guide;
- the badge colours (`getSeverityColor`, `getScoreColor`);
- the guards of the nutrient analyser's and the soil analyser's analyse
  actions (`if (!image) return`, and the blank-text guard with the image
  priority);
- the disease scanner's switch back to English.

Every reply from the model service, every camera answer and every clock
reading is a parameter. A reply is `Answered(text)` or `Failed`, the latter
standing for a thrown error. Each React handler is a pure function from the
component's state (and those parameters) to the next state. The soil
analyser's and the garden guide's `onResult` calls and the monitor's `onAlert`
call are returned beside the new state.

Modules, one per file:

| module | models |
|---|---|
| `Text` | the JavaScript string primitives the code relies on: `trim`, `split` with one separator, `startsWith`, `includes`, `replace` with a string (first occurrence), `replace(/lit/g, '')`, ASCII `toLowerCase` and `toUpperCase` |
| `Numbers` | `parseInt` with no radix argument, and `parseInt(x) \|\| 50` |
| `Remote` | a service reply, and `s \|\| fallback` on strings |
| `Markup` | the three `cleanText` variants, the multiline bullet regex `^\s*[\*\-]\s*`, and the item-marker regex `^[- \d.]*` |
| `ReportParser` | the line parser both report parsers share, driven by a table of labels |
| `DiseaseScanner`, `NutrientAnalyzer` | each component's table, record, colour function and action |
| `SoilAnalyzer` | the section split `\n(?=\d+\.\|\*\*)`, the cards, the icons and the analyse action |
| `CCTVMonitor` | the monitor state, the alert-name regex `ALERT: (.*) detected!`, the alert log, start, stop and scan |
| `Conversation`, `ChatBot`, `GardenCare` | the chat turn shared by both chats, and the two chat screens |

The two report parsers differ only in their labels and in how they clean a
value. The disease scanner runs its `cleanText` over each value; the nutrient
analyser only trims. `ReportParser` therefore proves each per-line fact once, on
a `Grammar` (labels, defaults, number of lists, dialect). The four "last write
wins" descriptions (`FieldIsLastWrite`, `ScoreIsLastWrite`,
`SectionIsLastHeader`, `ListIsCollected`) are independent definitions over the
list of lines. They are connected to the `forEach` fold by induction.

## Model

| member | source | states |
|---|---|---|
| Remote.OrElse | components/ChatBot.tsx:32 | `a \|\| b` on strings: the first operand unless it is empty |
| Text.IsSpace | components/DiseaseScanner.tsx:65 | the white space `trim()` and `\s` drop: ECMAScript's WhiteSpace and LineTerminator code points, and nothing else |
| Text.Trim | components/DiseaseScanner.tsx:65 | `trim()` returns the infix left after dropping white space at both ends; it is empty exactly when the text is all white space |
| Text.TrimOfPadded | components/DiseaseScanner.tsx:65 | trimming a trimmed core padded with white space gives back the core |
| Text.TrimIdempotent | components/DiseaseScanner.tsx:65 | trimming twice is trimming once |
| Text.Split | components/DiseaseScanner.tsx:61 | `split('\n')` gives at least one piece, no piece holds the separator, and joining the pieces gives the text back |
| Text.SplitJoin | components/DiseaseScanner.tsx:61 | round trip: splitting the join of separator-free pieces gives back the pieces |
| Text.SplitFree | components/DiseaseScanner.tsx:61 | a text without the separator splits into itself alone |
| Text.ContainsIff | components/DiseaseScanner.tsx:142 | `includes` holds exactly when the pattern occurs at some offset |
| Text.RemoveFirst | components/DiseaseScanner.tsx:68 | `replace(label, '')` leaves a text without the label unchanged, and otherwise shortens it by exactly the label's length |
| Text.FirstOccurrence | components/DiseaseScanner.tsx:68 | the search for a string pattern finds an offset exactly when the pattern occurs, and the pattern occurs at that offset |
| Text.FirstOccurrenceIsLeftmost | components/DiseaseScanner.tsx:68 | no occurrence starts before the offset found |
| Text.RemoveFirstCutsFirst | components/DiseaseScanner.tsx:68 | when the label occurs, exactly its leftmost occurrence is cut out, and the text before and after it is kept |
| Text.RemoveFirstOfPrefix | components/DiseaseScanner.tsx:68 | when the line starts with the label, the replace drops exactly that prefix |
| Text.RemoveAll | components/DiseaseScanner.tsx:32 | `replace(/\*\*/g, '')` never lengthens the text and leaves a text without the pattern alone |
| Text.RemoveAllOfPrefix | components/DiseaseScanner.tsx:32 | an occurrence at the start is dropped and the scan resumes right after it |
| Text.RemoveAllKeepsPrefix | components/DiseaseScanner.tsx:32 | a prefix in which no occurrence starts survives character for character, in front of the removal over the rest |
| Text.TrimNotContained | components/DiseaseScanner.tsx:32 | `trim()` cannot create an occurrence of a pattern |
| Text.RemoveAllRunPattern | components/DiseaseScanner.tsx:32 | after removing every `**`, no `**` is left; a text starting with fewer stars keeps that leading run |
| Text.StartsWith | components/DiseaseScanner.tsx:68-76 | `startsWith(p)`: the text is at least as long as `p` and begins with exactly the characters of `p` |
| Text.StartsWithRepeat | components/SoilAnalyzer.tsx:81 | a text starts with k copies of a character exactly when its leading run of that character is at least k long |
| Text.ToLower | components/DiseaseScanner.tsx:141 | `toLowerCase` maps each character and keeps the length |
| Text.ToLowerIdempotent | components/DiseaseScanner.tsx:141 | lower-casing twice is lower-casing once |
| Text.ToUpper | components/CCTVMonitor.tsx:112 | `toUpperCase()` keeps the length and upper-cases each character in place |
| Text.ToLowerOfUpper | components/SoilAnalyzer.tsx:65 | lower-casing after upper-casing is lower-casing |
| Numbers.ScoreOf | components/DiseaseScanner.tsx:71 | `parseInt(x) \|\| 50` is never 0; it is the parsed value when that is a non-zero number and 50 otherwise |
| Numbers.ParseInt | components/DiseaseScanner.tsx:71 | `parseInt` with no radix: blank text is NaN; the behaviour on numbers is stated by the lemmas below |
| Numbers.ParseIntOfDecimal | components/DiseaseScanner.tsx:71 | round trip: `parseInt` reads back a rendered number, with optional leading white space and minus sign and any non-digit tail |
| Numbers.ParseIntNoDigit | components/DiseaseScanner.tsx:71 | text with no digit after white space and a sign parses to NaN |
| Numbers.ParseSignedOfUnsigned | components/DiseaseScanner.tsx:71 | a leading `-` negates the value and a leading `+` keeps it |
| Numbers.ParseIntSkipsSpace | components/DiseaseScanner.tsx:71 | `parseInt` skips the white space in front of the sign or digits |
| Numbers.ScoreOfDecimal | components/DiseaseScanner.tsx:71 | a score label followed by a positive number stores that number; a literal 0 stores the default 50 |
| Numbers.ValueOfDecimal | components/DiseaseScanner.tsx:71 | the digits of a rendered number evaluate back to the number |
| Numbers.NumberingOfPrefix | components/DiseaseScanner.tsx:76 | a line that matches `^\d+\.` still matches with more text appended |
| Markup.SkipSpace | components/DiseaseScanner.tsx:32 | the greedy `\s*` stops at the first character that is not white space |
| Markup.BulletMatch | components/DiseaseScanner.tsx:32 | a bullet match starts at a line start and ends after it |
| Markup.BulletMatchExact | components/DiseaseScanner.tsx:32 | both directions: a match starts at an offset exactly when `^` holds there and the greedy `\s*` stops at `*` or `-`; it then ends where the greedy `\s*` after the bullet stops |
| Markup.ReplaceBullets | components/DiseaseScanner.tsx:32 | the global multiline replace of `^\s*[\*\-]\s*`: a text with no `*` and no `-` is left as it is |
| Markup.ReplaceBulletsNone | components/DiseaseScanner.tsx:32 | text without `*` or `-` is left as it is by the bullet pass |
| Markup.ReplaceBulletsKeeps | components/DiseaseScanner.tsx:32 | text in which no match starts is copied character for character up to the next offset considered |
| Markup.ReplaceBulletsAtNext | components/DiseaseScanner.tsx:32 | the text before the next match is kept, the match becomes the replacement and the scan resumes where the match ended; with no match left the rest is kept |
| Markup.CleanText | components/DiseaseScanner.tsx:31-33 | every `cleanText` variant returns trimmed text |
| Markup.CleanTextNoHeading | components/DiseaseScanner.tsx:32 | with a bullet text free of `#`, the cleaned text never holds `###`: the bullet pass and the trim create none |
| Markup.BulletPassNoHeading | components/ChatBot.tsx:27 | the bullet pass, over text with no `###` and a replacement free of `#`, leaves no `###` |
| Markup.CleanTextOfEmpty | components/ChatBot.tsx:26 | the empty string cleans to the empty string |
| Markup.CleanTextOfPlain | components/GardenCare.tsx:22-25 | text with no `*`, `#` or `-` is only trimmed |
| Markup.CleanLeadingBullet | components/ChatBot.tsx:25-28 | a leading bullet, with the white space on both sides, becomes the variant's bullet sign |
| Markup.BulletLineReplaced | components/ChatBot.tsx:27 | the bullet regex turns `  * body` into the bullet sign followed by the body |
| Markup.CleanBulletList | components/ChatBot.tsx:25-28 | a list of plain items, one per line behind `*` or `-` and white space, cleans to each item behind the variant's bullet text, line breaks kept, trimmed |
| Markup.ListReplaced | components/ChatBot.tsx:27 | the multiline bullet pass replaces the bullet of every line of such a list, and only the bullets |
| Markup.CleanTextCanLeaveBold | components/DiseaseScanner.tsx:32 | the passes run in sequence, so `a*###*b` cleans to `a**b` and emphasis split by a heading mark survives |
| Markup.StripItemMarker | components/DiseaseScanner.tsx:77 | `replace(/^[- \d.]*/, '')` drops the longest leading run of `-`, space, digit and `.`, and nothing else |
| Markup.StripItemMarkerOf | components/NutrientAnalyzer.tsx:55 | a marker run in front of a body that does not start with a marker character leaves exactly the body |
| Markup.StripItemMarkerEatsQuantities | components/DiseaseScanner.tsx:77 | the marker regex also eats digits that belong to the item: `- 10 kg urea` becomes `kg urea` |
| ReportParser.GrammarsWellFormed | components/DiseaseScanner.tsx:49-75 | both label tables name only fields and lists their records have, and their defaults are trimmed |
| ReportParser.CleanScalar | components/DiseaseScanner.tsx:68-70 | the disease scanner stores its `cleanText` of the text after the label, the nutrient analyser only trims it; either way the value is trimmed |
| ReportParser.CleanItem | components/NutrientAnalyzer.tsx:55 | the leading marker run is dropped first; then the disease scanner runs its `cleanText` and the nutrient analyser trims; the item is trimmed |
| ReportParser.FirstRule | components/DiseaseScanner.tsx:68-75 | the `if … else if` chain picks the first label the line starts with, and none exactly when no label matches |
| ReportParser.IsItemLine | components/DiseaseScanner.tsx:76 | `startsWith('-') \|\| match(/^\d+\./)`: an item line starts with a dash or a digit, and every dash-led line is one |
| ReportParser.ItemOf | components/DiseaseScanner.tsx:76-78 | an item line contributes a non-empty, trimmed item |
| ReportParser.Apply | components/DiseaseScanner.tsx:68-75 | a labelled line keeps the parse sound and never touches the lists; a field label changes only fields, a score label only the score, a header label only the section |
| ReportParser.AddItem | components/DiseaseScanner.tsx:78 | `push(item)` keeps the parse sound and changes only the lists |
| ReportParser.Step | components/DiseaseScanner.tsx:64-80 | one line of the loop keeps the parse sound and the raw text as it was |
| ReportParser.Parse | components/DiseaseScanner.tsx:48-83 | the parser returns a sound record whose `raw` is the input |
| ReportParser.Run | components/DiseaseScanner.tsx:64-80 | the `forEach` over the lines keeps the parse sound and never changes `raw` |
| ReportParser.RunAppend | components/DiseaseScanner.tsx:64 | the fold over two runs of lines is the fold over the first, then over the second |
| ReportParser.BlankLineIgnored | components/DiseaseScanner.tsx:66 | a blank or all-white-space line changes nothing, the section included |
| ReportParser.FieldLineSetsOnlyItsField | components/DiseaseScanner.tsx:68-70 | a scalar line sets its own field to the cleaned text after the label, and nothing else |
| ReportParser.ScoreLineSetsOnlyScore | components/DiseaseScanner.tsx:71 | a score line stores `parseInt(rest) \|\| 50` and nothing else |
| ReportParser.HeaderLineSelectsSection | components/DiseaseScanner.tsx:72-75 | a header line only switches the current section |
| ReportParser.ItemLineAppends | components/DiseaseScanner.tsx:76-79 | an unlabelled item line appends its item to the current section; without a section, or when it is not an item line, nothing changes |
| ReportParser.StepEffects | components/DiseaseScanner.tsx:64-80 | one line, field by field: each field, the score, the section and each list becomes what that line writes to it, or stays as it was |
| ReportParser.StepFrame | components/DiseaseScanner.tsx:68-79 | what each kind of line leaves alone |
| ReportParser.UnrecognizedLinesChangeNothing | components/DiseaseScanner.tsx:64-80 | with no section selected, lines that carry no label change nothing |
| ReportParser.DefaultsWhenNothingRecognized | components/DiseaseScanner.tsx:49-59 | a reply with no labelled line parses to the all-defaults record |
| ReportParser.FieldIsLastWrite | components/DiseaseScanner.tsx:68-70 | each field ends up with the value of the last line carrying its label, or keeps its starting value |
| ReportParser.ScoreIsLastWrite | components/DiseaseScanner.tsx:71 | the score comes from the last score line, or stays as it was |
| ReportParser.SectionIsLastHeader | components/DiseaseScanner.tsx:72-75 | the current section is the one the last header line selected |
| ReportParser.ListIsCollected | components/DiseaseScanner.tsx:76-79 | each list grows by exactly the items that came while its header was current, in order |
| ReportParser.ParseFieldIsLastWrite | components/DiseaseScanner.tsx:48-83 | for a whole reply, each field is its last write or its default |
| ReportParser.ParseScoreIsLastWrite | components/DiseaseScanner.tsx:53 | for a whole reply, the score is its last write or 50 |
| ReportParser.ParseListIsCollected | components/DiseaseScanner.tsx:54-57 | for a whole reply, each list starts empty and collects its items |
| ReportParser.RuleOfTrimmedLine | components/DiseaseScanner.tsx:65 | on a trimmed, non-blank line the rule is the first matching label |
| ReportParser.WritesOfRule | components/DiseaseScanner.tsx:68-76 | a labelled line writes exactly its own target and is never taken as an item line |
| ReportParser.ScoreLineWrites | components/NutrientAnalyzer.tsx:51 | a line whose first label is the score label writes only the score |
| ReportParser.NoHeaderNoItems | components/DiseaseScanner.tsx:78 | items that come before any header are dropped (`if (currentSection && item)`) |
| ReportParser.HeaderThenItems | components/DiseaseScanner.tsx:72-79 | a header followed by N item lines adds exactly those N items, in order, to that list and to no other |
| ReportParser.ItemsAppend | components/DiseaseScanner.tsx:76-79 | item lines keep the section and append to its list, in order |
| ReportParser.ItemsLeaveOtherLists | components/DiseaseScanner.tsx:78 | item lines leave every list except the current section's alone |
| DiseaseScanner.ParseAIResult | components/DiseaseScanner.tsx:48-83 | `raw` is the reply; the score is never 0; every scalar is trimmed; every item is non-empty and trimmed |
| DiseaseScanner.ParseAIResultDefaults | components/DiseaseScanner.tsx:49-59 | a reply with no labelled line gives Unknown Plant, Unknown Condition, Medium, 50 and four empty lists |
| DiseaseScanner.ParseAIResultIsLastWrite | components/DiseaseScanner.tsx:61-80 | each field is its last labelled write, the score is its last write or 50, and each list collects its section's items |
| DiseaseScanner.ScoreLineValue | components/DiseaseScanner.tsx:71 | `HEALTH_SCORE:` followed by a positive number stores that number and writes no field or item |
| DiseaseScanner.SeverityLineValue | components/DiseaseScanner.tsx:70 | `SEVERITY:` followed by a plain value stores the value, cleaned, in the severity field only |
| DiseaseScanner.ScoreAndSeverityReply | components/DiseaseScanner.tsx:48-83 | a two-line reply with a score and a severity sets exactly those two and leaves the rest at the defaults |
| DiseaseScanner.SeverityColor | components/DiseaseScanner.tsx:140-145 | rose exactly when the lower-cased severity contains "high"; amber exactly when it contains "medium" and not "high"; emerald otherwise |
| DiseaseScanner.SeverityColorIgnoresCase | components/DiseaseScanner.tsx:141 | the badge colour does not depend on letter case |
| DiseaseScanner.HighWinsOverMedium | components/DiseaseScanner.tsx:142-143 | example of the severity colour: "high" wins over "medium" when both occur |
| DiseaseScanner.Translate | components/DiseaseScanner.tsx:120-138 | nothing happens without an original reply or while translating; English re-parses the original; another language parses the translation; a failure leaves the result |
| DiseaseScanner.EnglishUndoesTranslation | components/DiseaseScanner.tsx:123-126 | switching back to English after any translation gives what switching to English directly gives |
| NutrientAnalyzer.ParseNutrientResult | components/NutrientAnalyzer.tsx:32-61 | `raw` is the reply; the score is never 0; both scalars are trimmed; every item is non-empty and trimmed |
| NutrientAnalyzer.ParseNutrientResultDefaults | components/NutrientAnalyzer.tsx:33-40 | a reply with no labelled line gives Unknown, Medium, 50 and two empty lists |
| NutrientAnalyzer.ParseNutrientResultIsLastWrite | components/NutrientAnalyzer.tsx:42-58 | each field is its last labelled write, the score is its last write or 50, and each list collects its section's items |
| NutrientAnalyzer.SeverityKeepsEmphasis | components/NutrientAnalyzer.tsx:50 | the nutrient severity is only trimmed: a value is stored as it is, Markdown and all |
| NutrientAnalyzer.ScoreLineValue | components/NutrientAnalyzer.tsx:51 | `Health Score:` followed by a number stores it, and a literal 0 stores 50 |
| NutrientAnalyzer.ScoreColor | components/NutrientAnalyzer.tsx:80-84 | emerald exactly from 80 up, amber exactly from 50 to 79, rose exactly below 50 |
| NutrientAnalyzer.ScoreColorMonotone | components/NutrientAnalyzer.tsx:80-84 | a higher score never gets a worse colour |
| NutrientAnalyzer.DefaultScoreIsAmber | components/NutrientAnalyzer.tsx:36 | example of the score colour: the default score is shown amber |
| NutrientAnalyzer.Analyze | components/NutrientAnalyzer.tsx:63-78 | without an image, or with an empty one, nothing happens; otherwise the busy flag ends cleared, an answer is parsed into the result, and a failure keeps the old result |
| NutrientAnalyzer.AnalyzeIdempotent | components/NutrientAnalyzer.tsx:63-78 | analysing twice with the same answer is analysing once |
| SoilAnalyzer.Sections | components/SoilAnalyzer.tsx:55 | the lookahead split: the pieces joined by newlines give back the text, and every piece after the first starts with a numbering or `**` |
| SoilAnalyzer.SectionsOfJoin | components/SoilAnalyzer.tsx:55 | round trip: splitting newline-joined, well-cut pieces gives back the pieces |
| SoilAnalyzer.SectionsOfUnbroken | components/SoilAnalyzer.tsx:55 | a text with no newline before a marker is one section |
| SoilAnalyzer.NonBlank | components/SoilAnalyzer.tsx:55 | `filter(s => s.trim().length > 0)` keeps the non-blank pieces in order, is empty exactly when all are blank, and keeps everything when none is blank |
| SoilAnalyzer.NonBlankAppend | components/SoilAnalyzer.tsx:60 | filtering distributes over concatenation |
| SoilAnalyzer.SomeLineNotAllSpace | components/SoilAnalyzer.tsx:60-61 | a non-blank section has a non-blank line, so `lines[0]` exists |
| SoilAnalyzer.Title | components/SoilAnalyzer.tsx:61 | a card title is trimmed |
| SoilAnalyzer.TitleOfNumbered | components/SoilAnalyzer.tsx:61 | the heading `N. name` is titled by its name, with the first colon removed, trimmed |
| SoilAnalyzer.TitleOfPlain | components/SoilAnalyzer.tsx:61 | a line without `*` or `#` is titled by its text with the numbering and the first colon removed, trimmed |
| SoilAnalyzer.TitleCanHoldHeading | components/SoilAnalyzer.tsx:61 | the colon goes after `###` has been removed, so `#:##` is titled `###` |
| SoilAnalyzer.StripNumberingOf | components/SoilAnalyzer.tsx:61 | `^\d+\.\s*` removes the numbering and the white space after it, and nothing else |
| SoilAnalyzer.StripNumbering | components/SoilAnalyzer.tsx:61 | `replace(/^\d+\.\s*/, '')`: a leading numbering and the white space after it are removed, and a text without one is kept |
| SoilAnalyzer.Item | components/SoilAnalyzer.tsx:81 | a card item is trimmed |
| SoilAnalyzer.ItemNoHeading | components/SoilAnalyzer.tsx:81 | a card item never holds `###` |
| SoilAnalyzer.ItemOfStarred | components/SoilAnalyzer.tsx:81 | a starred line `  * text` becomes its text |
| SoilAnalyzer.StripStars | components/SoilAnalyzer.tsx:81 | `replace(/^\s*\*+\s*/, '')`: the text is kept unless its first non-blank character is a star |
| SoilAnalyzer.StripStarsAfterSpace | components/SoilAnalyzer.tsx:81 | `^\s*\*+\s*` removes the leading white space, the whole run of stars and the white space after it |
| SoilAnalyzer.Items | components/SoilAnalyzer.tsx:78-81 | every content line becomes one item, in order |
| SoilAnalyzer.IconOf | components/SoilAnalyzer.tsx:64-68 | tractor exactly when the title mentions "crop"; trending-up exactly when it mentions "yield" or "why" but not "crop"; light bulb otherwise, in any letter case |
| SoilAnalyzer.IconIgnoresCase | components/SoilAnalyzer.tsx:65-66 | upper-casing a title does not change its icon |
| SoilAnalyzer.CardOf | components/SoilAnalyzer.tsx:59-62 | one section's card, whose icon is chosen by its title; its title and items are stated by `CardShape` |
| SoilAnalyzer.CardShape | components/SoilAnalyzer.tsx:60-62 | a card's title comes from the first non-blank line and its items from the remaining non-blank lines |
| SoilAnalyzer.Cards | components/SoilAnalyzer.tsx:59 | one card per section, in order |
| SoilAnalyzer.FormatSoilData | components/SoilAnalyzer.tsx:54-91 | one card per non-blank section, in order |
| SoilAnalyzer.FormatSoilDataOfParts | components/SoilAnalyzer.tsx:55-62 | a report made of marker-led parts gives one card per non-blank part, in order |
| SoilAnalyzer.BlankReportHasNoCards | components/SoilAnalyzer.tsx:55 | blank text gives no card at all |
| SoilAnalyzer.RequestOf | components/SoilAnalyzer.tsx:31-42 | nothing is sent exactly when the input is blank and there is no image; an image is sent in preference to any text; text is sent only when it is not blank |
| SoilAnalyzer.Analyze | components/SoilAnalyzer.tsx:29-52 | an ignored action changes nothing; otherwise the busy flag ends cleared and some text is shown; an answer is shown (an empty one as the fixed notice) and passed on unchanged; a failure shows the error and saves nothing |
| SoilAnalyzer.ImageTakesPriority | components/SoilAnalyzer.tsx:37-42 | with an image loaded, the typed text and the override do not change what is sent |
| CCTVMonitor.GreedyEnd | components/CCTVMonitor.tsx:99 | the greedy `(.*)` finds the last place on the line where ` detected!` can follow |
| CCTVMonitor.FirstMatch | components/CCTVMonitor.tsx:99 | `match` uses the leftmost offset where the pattern matches |
| CCTVMonitor.AlertName | components/CCTVMonitor.tsx:99-100 | without a match the name is "Unidentified Animal" |
| CCTVMonitor.AlertNameIsLeftmostLongest | components/CCTVMonitor.tsx:99-100 | the name is the capture of the leftmost match, with the longest capture on its line |
| CCTVMonitor.AlertNameOfReport | components/CCTVMonitor.tsx:99-100 | round trip: the line `ALERT: name detected!` gives back `name` |
| CCTVMonitor.GreedyCapture | components/CCTVMonitor.tsx:99 | with two ` detected!` on a line the capture runs to the second |
| CCTVMonitor.NoEndPastLine | components/CCTVMonitor.tsx:99 | `.` does not cross a line terminator, so a capture ends on its own line |
| CCTVMonitor.Description | components/CCTVMonitor.tsx:101 | the description is never empty |
| CCTVMonitor.DescriptionOfLines | components/CCTVMonitor.tsx:101 | the description is the reply's second line when it exists and is non-empty, and the fixed text otherwise |
| CCTVMonitor.PushAlert | components/CCTVMonitor.tsx:110 | `[a, ...prev].slice(0, 10)` puts the new alert first, keeps at most ten and drops the oldest |
| CCTVMonitor.PushAllKeepsNewest | components/CCTVMonitor.tsx:110 | after any run of alerts the log is the newest ten, newest first |
| CCTVMonitor.ProcessDetection | components/CCTVMonitor.tsx:97-119 | without `ALERT:` only the status becomes "Field Clear"; with it the alert is logged under the matched name, the status warns in capitals, and the parent gets the name, the whole reply and the image |
| CCTVMonitor.BareTagIsUnidentified | components/CCTVMonitor.tsx:98-100 | a reply with the tag but not the full pattern still raises an alert, under "Unidentified Animal" |
| CCTVMonitor.BeginScan | components/CCTVMonitor.tsx:64-84 | when a guard fails nothing changes; otherwise the scan marks itself busy and stamps the time |
| CCTVMonitor.FinishScan | components/CCTVMonitor.tsx:86-94 | the busy flag ends cleared; a failure only sets the retry status; an answer is processed as a detection |
| CCTVMonitor.FailedScanOnlySetsStatus | components/CCTVMonitor.tsx:89-94 | a scan that starts and fails leaves monitoring and the alert log alone |
| CCTVMonitor.ScanClearsLoading | components/CCTVMonitor.tsx:83-94 | a started scan is busy in between and not after, and monitoring is unchanged |
| CCTVMonitor.Start | components/CCTVMonitor.tsx:26-47 | a refusal sets the permission or hardware error by the error's name, and the failed status; a granted camera with the video element mounted starts monitoring and the timer |
| CCTVMonitor.RefusalKeepsMonitorOff | components/CCTVMonitor.tsx:42-46 | a refused camera leaves an idle monitor off, and only `NotAllowedError` reads as permission denied |
| CCTVMonitor.IdleConsistent | components/CCTVMonitor.tsx:15-20 | the state on mount (`Idle`: off, not busy, "System Idle", no error, empty log, no timer, no stream) satisfies the monitor's invariant |
| CCTVMonitor.Stop | components/CCTVMonitor.tsx:49-62 | after stopping, nothing runs, nothing is busy and the status is "System Offline"; the log and the error stay |
| CCTVMonitor.StopIdempotent | components/CCTVMonitor.tsx:49-62 | stopping twice is stopping once |
| CCTVMonitor.NoScanAfterStop | components/CCTVMonitor.tsx:65 | once stopped, a timer tick changes nothing |
| CCTVMonitor.LateReplyAfterStop | components/CCTVMonitor.tsx:86-88 | a reply that arrives after stopping is still applied: its alert is logged and its warning replaces "System Offline" |
| CCTVMonitor.FinishScanIfActive | components/CCTVMonitor.tsx:86-94 | a guarded finish step: with the monitor off, a reply is dropped and only the busy flag is cleared; while monitoring it is the finish step as written |
| CCTVMonitor.LateReplyDiscarded | components/CCTVMonitor.tsx:49-62 | with the guarded finish step, any reply arriving after stopping leaves the stopped monitor exactly as stopping left it, with no notice to the parent |
| CCTVMonitor.ClearAlerts | components/CCTVMonitor.tsx:355 | "Clear Logs" empties the log and changes nothing else |
| CCTVMonitor.FinishKeepsConsistent | components/CCTVMonitor.tsx:86-110 | the finish step keeps the log at ten or fewer alerts and leaves monitoring, the timer and the stream alone |
| CCTVMonitor.NextKeepsConsistent | components/CCTVMonitor.tsx:26-119 | every handler keeps the log at ten or fewer and keeps the timer running only while monitoring |
| CCTVMonitor.RunKeepsConsistent | components/CCTVMonitor.tsx:110 | from mount on, whatever happens, the log never holds more than ten alerts |
| CCTVMonitor.NeverMonitors | components/CCTVMonitor.tsx:165-197 | when every start finds the video element exactly while monitoring (as the view renders it), a stopped monitor never starts monitoring and never gets a stream |
| Conversation.ModelText | components/ChatBot.tsx:48-55 | the model's turn is the cleaned answer, the error text on failure, and always trimmed for an answer |
| Conversation.EmptyAnswerShowsFallback | components/ChatBot.tsx:50 | an empty answer shows "I couldn't process that. Please try again." exactly |
| ChatBot.Initial | components/ChatBot.tsx:8-14 | the chat opens with the greeting alone, as a model turn |
| ChatBot.HistoryOf | components/ChatBot.tsx:42-45 | the history has one turn per message, with its speaker and text |
| ChatBot.HistoryOfAppend | components/ChatBot.tsx:42-45 | the history of a longer transcript extends the history of its start |
| ChatBot.Send | components/ChatBot.tsx:30-59 | blank input or a pending answer changes nothing; otherwise exactly two messages are appended (the untrimmed user text, then the model's turn), the old messages are kept, and the service gets the text and the history before it |
| ChatBot.SendHistoryIsPriorTranscript | components/ChatBot.tsx:38-47 | the history sent is the transcript before the user's turn, and the new transcript is it plus the two new turns |
| ChatBot.SendFallbacks | components/ChatBot.tsx:50-55 | a failure appends the error text with no time; an empty answer appends the fallback text |
| ChatBot.Translate | components/ChatBot.tsx:61-78 | only the message at the index changes; a translating message is left alone; an answer replaces its text by the cleaned translation, or the cleaned original when the translation is empty; a failure keeps it |
| ChatBot.FailedTranslationIsNoOp | components/ChatBot.tsx:74-76 | a failed translation of an idle message changes nothing at all |
| ChatBot.TranslateIdempotent | components/ChatBot.tsx:71-73 | translating twice with the same non-empty answer, or with a failure, is translating once |
| ChatBot.Clear | components/ChatBot.tsx:95 | the clear button keeps the first message alone |
| ChatBot.NextKeepsConsistent | components/ChatBot.tsx:30-95 | every action keeps the transcript non-empty and opened by a model turn; send and clear keep the first message |
| ChatBot.RunKeepsConsistent | components/ChatBot.tsx:8-95 | from the greeting on, the transcript is never empty; without translations it still opens with the greeting |
| GardenCare.Search | components/GardenCare.tsx:27-45 | a blank query changes nothing; an answer is cleaned, shown, saved as "Care Guide: query" and resets the chat; a failure shows the error, keeps the chat and saves nothing |
| GardenCare.EmptyGuideShowsNotice | components/GardenCare.tsx:35 | an empty guide shows "No information found." exactly |
| GardenCare.Head | components/GardenCare.tsx:63 | `substring(0, 500)` is the text's prefix of exactly 500 characters, or the whole text when that is shorter |
| GardenCare.ContextPrompt | components/GardenCare.tsx:63 | with a guide shown, the question is wrapped with the query and exactly the first 500 characters of the guide (all of it when shorter); otherwise it is sent as it is |
| GardenCare.PromptLengthBound | components/GardenCare.tsx:63 | the prompt never carries more than 500 characters of guide |
| GardenCare.Chat | components/GardenCare.tsx:47-76 | blank input or a pending request changes nothing; otherwise the user turn and the model's turn are appended, the input is cleared, and the service gets the context prompt and the chat before the question |
| GardenCare.ChatAfterSearch | components/GardenCare.tsx:27-76 | a question after a successful search is sent with no history, and with the state's query and the first 500 characters of exactly the guide that was saved |
| GardenCare.ChatHistoryIsPriorChat | components/GardenCare.tsx:54-65 | the history sent is the chat before the question, and the new chat is that history plus exactly two turns |

## Where the code and its description differ

The model follows the code in each case.

- A detection reply that arrives after the monitor was stopped is still
  applied (`CCTVMonitor.LateReplyAfterStop`), although a reply arriving after
  stop would be expected to be discarded. Nothing in `captureAndAnalyze`
  checks whether monitoring is still on once the service answers.
  `CCTVMonitor.FinishScanIfActive` is the guarded finish step, and
  `CCTVMonitor.LateReplyDiscarded` proves that with it a late reply leaves the
  stopped monitor untouched. The event model (`CCTVMonitor.Next`) keeps the
  step as written.
- `processAIDetection` computes a description line, but passes the whole
  reply to `onAlert` (line 111). `CCTVMonitor.Description` models the unused
  value; the notice carries the whole reply.
- As written, the monitor can never start. The Start buttons are shown only
  while monitoring is off (lines 165-167 and 274), and the `<video>` element
  is rendered only while monitoring is on (lines 195-197). So when
  `startStream` gets the camera, `videoRef.current` is always null, and
  neither the stream, the status nor the timer is set.
  `CCTVMonitor.NeverMonitors` proves this for every run in which each start
  finds the video element exactly while monitoring. The `videoMounted`
  parameter of `CCTVMonitor.Start` still covers both cases, so the model
  also says what would happen if the element were always rendered.
- In the chat bot, an empty translation re-cleans the original text. Cleaning
  is not always idempotent (`Markup.CleanTextCanLeaveBold`), so
  `ChatBot.TranslateIdempotent` excludes that case.
- `parseInt` without a radix reads a `0x` or `0X` prefix as hexadecimal, as
  the language defines it, so `HEALTH_SCORE: 0x1F` stores 31. The model
  includes that case; it is not just "the longest digit prefix".
- The item-marker regex `^[- \d.]*` also removes digits that belong to the
  item, so `- 10 kg urea` is stored as `kg urea`
  (`Markup.StripItemMarkerEatsQuantities`).

## Left out

- The model service (`services/geminiService.ts`) is not part of this model: each reply is a parameter.
- Camera access, canvas capture, `navigator.vibrate`, `Date`, the alert ids and the timer's clock are parameters or left out: they are browser I/O.
- The `onloadedmetadata` callback in `startStream` is treated as running at once: the model has no event loop.
- The interval in `startStream` captures the `captureAndAnalyze` of the render whose Start click ran `startStream` (line 39), a stale React closure in which `isMonitoring` is still false, so in the code as written each of its ticks returns at the guard on line 65. The model lets each tick see the current state, because React's closure semantics are not modelled.
- `simulateIntrusion` and the view markup are left out: the first is a test helper and the second is presentation.
- The unmount cleanup (line 147) is the same as `CCTVMonitor.Stop`, so it is not modelled separately.
- DiseaseScanner `handleAction` (lines 85-118) is left out, together with its guard `if (!image && !finalInput.trim()) return;` (line 86). Its first branch runs the image analysis and sets `originalRaw`, which `DiseaseScanner.Translate` takes as given; its second branch is the follow-up chat.
- The intermediate loading states inside async handlers (for example `isTranslating: true` while a translation runs) are left out: each handler is modelled as one atomic step.
- The target language of a translation is left out: the translation service is opaque.
- ChatBot.Translate: an index outside the transcript makes the handler throw before changing anything; the model returns the state unchanged.
- ChatBot.Clear requires a non-empty transcript, which `ChatBot.RunKeepsConsistent` shows always holds.
- Text.RemoveFirst: its own contract states only the length; which occurrence goes is stated by `Text.RemoveFirstCutsFirst`.
- Text.RemoveAll: its own contract states only that the text never grows and that pattern-free text is kept; which characters survive is stated by `Text.RemoveAllOfPrefix` and `Text.RemoveAllKeepsPrefix`.
- Markup.BulletMatch: its own contract gives one direction; both directions are in `Markup.BulletMatchExact`.
- Numbers.ParseInt: its own contract states only that blank text is NaN; what it reads from a number is stated by `Numbers.ParseIntOfDecimal`, `Numbers.ParseIntNoDigit`, `Numbers.ParseIntSkipsSpace` and `Numbers.ParseSignedOfUnsigned`.
- Markup.ReplaceBullets: its own contract states only the bullet-free case; matches are stated by `Markup.ReplaceBulletsKeeps`, `Markup.ReplaceBulletsAtNext`, `Markup.CleanLeadingBullet` and `Markup.ListReplaced`.
- SoilAnalyzer.CardOf: its own contract states only the icon; the title and the items are stated by `SoilAnalyzer.CardShape`.
- Text.IsSpace and Text.StartsWith are predicates whose definitions are their meaning; they carry no contract.
- Markup.ReplaceBulletsFrom: the function carries no contract of its own; `Markup.ReplaceBulletsNone`, `Markup.ReplaceBulletsKeeps` and `Markup.ReplaceBulletsAtNext` state what it does.
- Markup.CleanBulletList: covers lists of plain items (no `*`, `#`, `-` or line break inside an item); a single line with markup is covered by `Markup.CleanLeadingBullet`.
- GardenCare.Head: `substring` counts UTF-16 code units, and the model counts characters (Unicode scalar values).
- Numbers.ScoreOf: `parseInt` returns a double, which loses precision above 2^53; the model's integers are exact.
- Text.ToLower and Text.ToUpper map ASCII letters only: full Unicode case mapping is not modelled.
- The `onResult` callbacks of the nutrient analyser and the disease scanner are left out. The soil analyser's and the garden guide's are returned as `Saved` values.
