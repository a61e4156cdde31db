# rate-my-pr (difficulty variant) in Dafny

`main.py` rates a pull request's risk. At import time it does the following, once and in order:

1. It makes sure the repository has the three category labels, creating any that are missing with a fixed colour and description.
2. It fetches the repository description, the diff and the review rules.
3. It builds a prompt from the system prompt file and a user section.
4. It sends the prompt to a local completion server.
5. It reads a category, BLUE, RED or BLACK, off the first line of the reply that passes the scan at main.py:137: the line contains "BLUE" or "RED" as written, or contains "BLACK" once upper-cased. So "blue" does not pass, and "ALTERED" does, because it contains "RED".
6. It writes the result back to the pull request: the category label, if one was found, then a comment.

This project models the decisions in that pipeline and proves what they guarantee. The network calls themselves are left out. Their answers (status codes, listings, the reply text) are parameters instead.

The modules are:

- `Wrappers`: `Option`, which stands in for Python's `None`-or-value.
- `Text`: the Python string operations the script relies on, over `seq<char>`.
  - `str.split` and `str.join` on a one-character separator.
  - ASCII `str.upper`.
  - The substring test `sub in s`.
  - The f-string rendering of a possibly-`None` value as `"None"`.
- `Triage`:
  - The `Category` enum.
  - The reply interpreter of `query_and_parse_llama`. It comes as a reference function, `Interpret`, and as the method `QueryAndParseLlama` with the source's loop, proved equal to it.
  - `Publish`: what the end of the script writes to the pull request for each outcome.
- `GitHub`:
  - The request headers.
  - The rules override of `get_rules`.
  - The label description and the create-if-absent decision of `create_label_if_not_exists`.
  - The label table.
- `Prompt`: the two f-strings that build the prompt.

`Category(line.upper())` raises `ValueError` when the deciding line is anything but a bare category value, and the exception ends the script. The model makes that outcome the `Reply.InvalidCategory` value, for which `Publish` writes nothing.

Some behaviour of the code is easy to misread, and the model keeps it as written:

- `query_llama` makes one completion attempt, with no retry.
- A deciding line such as "BLUE X" raises `ValueError` and ends the script (`BlueWithSuffixRaises`).
- A line that is exactly a category value decides the outcome only when no earlier line passes the scan (`FirstCategoryLineDecides`).
- The PR title is fetched at main.py:256 but never used (`UserPromptLayout`).
- The rules request at main.py:67-70 sends the `Accept: application/vnd.github.v3+json` header of `get_auth_header`, not the raw media type that the comment at main.py:74 assumes. `get_rules` therefore returns the response body as sent for that media type, and the model does not claim it is the file's text (`FetchedRulesText`). `get_diff` sends the same header (main.py:26-27).

## Model

| member | source | states |
|---|---|---|
| Triage.IsCategoryLine | main.py:137 | the scan's test: "BLUE" or "RED" occurs in the line as written, or "BLACK" occurs in it upper-cased; its consequences are proved in `AnyCaseBlackIsBlack`, `OtherCaseBlueOrRedIsIgnored` and `NoTokenLettersNoCategory` |
| Triage.Interpret | main.py:131-143 | the reference meaning of the interpreter; `QueryAndParseLlama` is proved equal to it, and its behaviour is stated by `NoCategoryLineKeepsReply`, `FirstCategoryLineDecides`, `CategoryNeedsExactToken`, `LaterLinesKeepCategory` and `CommentIsRestOfReply` |
| Triage.Publish | main.py:280-289 | the writes at the end of the script for each outcome; stated by `PublishWritesCommentAndLabel` and `AttachedLabelIsInTable` |
| Text.Split | main.py:136 | `str.split` on one character always gives at least one piece; its other properties are in `SplitPiecesLackSeparator`, `JoinSplit` and `SplitJoin` |
| Text.Join | main.py:139 | `str.join` with one character, the inverse of `Split` by `JoinSplit` and `SplitJoin` |
| Text.Str | main.py:258-266 | how an f-string renders a value that may be `None`; its use is stated by `UserPromptLayout` |
| GitHub.GetRules | main.py:60-77 | `get_rules` with the request's answer as a parameter; stated by `RulesOverrideShortCircuits` and `FetchedRulesText` |
| Prompt.UserPrompt | main.py:258-266 | the f-string `user_prompt`; its layout is stated by `UserPromptLayout` |
| Prompt.FullPrompt | main.py:271-278 | the f-string `full_prompt`; its layout is stated by `FullPromptLayout`, `FullPromptDeterminesUserSection` and `UserTextIsNotEscaped` |
| Triage.FromValue | main.py:16-19 | `Category(v)` yields a member exactly when `v` is one of the three values, and that member is the one whose value is `v`; every other string is the `ValueError` case |
| Triage.FirstMatch | main.py:136-140 | the scan stops at a line that passes the test at line 137, with no passing line before it, and finds nothing only when no line passes |
| Triage.QueryAndParseLlama | main.py:131-143 | the line-by-line loop with its early `break` returns exactly the reference interpretation `Interpret` of the completion text, in all three outcomes |
| Triage.NoCategoryLineKeepsReply | main.py:141-142 | the result is unclassified if and only if no line of the reply passes the scan, and the comment is then the whole reply, unchanged |
| Triage.FirstCategoryLineDecides | main.py:136-140 | the first passing line in reading order alone decides the outcome: its upper-cased text picks the category, or raises, and the lines after it are the comment |
| Triage.LaterLinesKeepCategory | main.py:136-140 | appending lines to a reply that has a passing line leaves the category, or the error, as it was; the appended text only extends the comment |
| Triage.CommentIsRestOfReply | main.py:139 | a classified reply is its lines up to and including the deciding one, then a newline and the comment; the comment is empty when the deciding line is the last one |
| Triage.CategoryNeedsExactToken | main.py:138 | a category comes out if and only if the whole deciding line upper-cases to one of the three values; otherwise the error carries that upper-cased line |
| Triage.AnyCaseBlackIsBlack | main.py:137-138 | a line spelling "black" in any case passes the scan and yields BLACK |
| Triage.OtherCaseBlueOrRedIsIgnored | main.py:137 | a line spelling "blue" or "red" in anything but capitals does not pass the scan, because those two tests are case-sensitive |
| Triage.OtherCaseBlueOrRedReplyIsUnclassified | main.py:136-142 | a one-line reply such as "blue" or "Red" falls through to the unclassified result with the reply as the comment |
| Triage.NoTokenLettersNoCategory | main.py:137 | a line with no capital B, no small b and no capital D cannot pass the scan |
| Triage.OneLineWithoutTokenIsUnclassified | main.py:141-142 | a one-line reply with no passing line comes back as the comment, with no category |
| Triage.TokenLineThenComment | main.py:136-143 | a reply whose first line is exactly a category value (any spelling, for BLACK) yields that category, with the whole rest of the reply as the comment |
| Triage.LongerTokenLineRaises | main.py:138 | a first line that passes the scan but is not a bare category value makes `Category(...)` raise, whatever follows it |
| Triage.BlueWithSuffixRaises | main.py:137-138 | a first line that starts with "BLUE" and goes on (such as "BLUE LABEL") raises, whatever follows it |
| Triage.PublishWritesCommentAndLabel | main.py:280-289 | a classified reply gets exactly the label `Value(category)`, then the comment; an unclassified reply gets only the comment; a rejected reply gets no write at all |
| Triage.BlueReplyScenario | main.py:280-286 | the reply "BLUE", then "Looks good, minor nits." gives BLUE with the second line as the comment, so the BLUE label and that comment are written |
| Triage.CaseAsymmetryScenario | main.py:137-142 | "Black" on its own line gives BLACK with an empty comment, while "blue" is not recognised at all |
| Text.SplitPiecesLackSeparator | main.py:136 | no piece of a split holds the separator |
| Text.JoinSplit | main.py:139 | joining the pieces of a split with the same separator gives back the text that was split |
| Text.SplitJoin | main.py:139 | splitting a join of separator-free pieces gives back the pieces |
| Text.Upper | main.py:137-138 | upper-casing keeps the length, maps each character on its own, and leaves no lower-case ASCII letter |
| Text.Contains | main.py:137 | `sub in s` holds if and only if `sub` occurs in `s` at some offset |
| GitHub.GetAuthHeader | main.py:205-210 | every request carries exactly an Authorization and an Accept header, the latter the v3 JSON media type |
| GitHub.AuthHeaderCarriesToken | main.py:207 | the Authorization header is "token " followed by the token, which can be read back from it |
| GitHub.AuthHeaderInjective | main.py:207 | two tokens give the same headers only when they are the same token |
| GitHub.RulesOverrideShortCircuits | main.py:60-62 | a non-empty override is returned verbatim without any request; an empty or missing override always requests the rules file, and the two cases behave alike |
| GitHub.FetchedRulesText | main.py:72-77 | the fetched rules are the response body on status 200 and the fixed notice "No additional rules provided" on any other status |
| GitHub.LabelDescription | main.py:159-166 | a label name has a description, which is non-empty, exactly when it is one of the three category values |
| GitHub.CreateLabelIfNotExists | main.py:146-182 | a create is sent if and only if the listing succeeded and lacks the name; it carries the given name and colour and the fixed description of `LabelDescription` for that name, present exactly for the category names |
| GitHub.SecondCallCreatesNothing | main.py:153-175 | once the first call's create succeeded (status 201), a second call on the refreshed listing sends no create; after a failed create it sends one again |
| GitHub.LabelTableNamesCategories | main.py:243-247 | the label table, the constant `Labels` with the colours of main.py:243-247, has one entry per category, each of them a name with a description |
| GitHub.AttachedLabelIsInTable | main.py:282-284 | whatever label the script attaches to the pull request is one of those it made sure of first |
| Prompt.FullPromptLayout | main.py:271-278 | the full prompt is the system marker, the system prompt, the user marker, the user section and the assistant marker, in that order and with nothing else |
| Prompt.FullPromptDeterminesUserSection | main.py:271-278 | with the system prompt fixed, different user sections give different prompts |
| Prompt.UserPromptLayout | main.py:258-266 | the user section is exactly the labels "\n--- ", " ---\n", "\n\nRules: ", "\n\nDiff:\n" and "\n" with the repository name, its description, the rules and the diff between them, verbatim and in that order, each at its offset |
| Prompt.UserTextIsNotEscaped | main.py:271-278 | any text that occurs in the user section occurs unchanged at the corresponding offset of the full prompt |
| Prompt.DiffCanForgeAssistantMarker | main.py:258-278 | a diff that contains the assistant marker puts that marker into the prompt twice, the copy before the real one |

## Left out

- HTTP requests, URLs, JSON decoding and `print`: these are I/O. Each fetch or write is represented by what the script reads from its answer (a status code, a text, a list of label names) or by the `Action` it would send.
- `query_llama` (lines 100-128) is not part of this model. The completion text, including its error strings, is the input of `QueryAndParseLlama`, and the fixed temperature of 0.0 is not modelled.
- `get_diff`, `get_repo_desc` and `get_pr_desc` are left out as network fetches. Their `None` on failure is the `Option` argument of `UserPrompt`, rendered as "None".
- The tuple unpacking of `get_pr_desc`'s result (line 256) fails when that fetch fails; this is not modelled. The title and description it returns are never used.
- Environment variables (lines 8-12) and the `system_prompt.txt` file (lines 268-269) are read at import time. They are parameters of the model instead.
- The module-level loop over the label table (lines 250-251) is not modelled as a loop. `CreateLabelIfNotExists` and `SecondCallCreatesNothing` cover one label at a time.
- `add_label_to_pr` and `add_comment_to_pr` (lines 185-239) only send requests and log their status. They are the `AddLabel` and `AddComment` actions of `Publish`.
- Text.Upper: maps only the ASCII letters a to z. Python's `str.upper` also maps other Unicode letters, some of them to several characters.
- A JSON `null` repository description and a failed description fetch both reach the prompt as "None". The model does not tell the two apart.
- The reply "This PR touches auth and payments, recommend senior review." is not stated as a lemma on that literal. `OneLineWithoutTokenIsUnclassified` and `NoTokenLettersNoCategory` cover every reply like it.
