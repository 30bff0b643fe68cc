# Recipe recommender: title extraction and prompt context

`RecipeRecommender` in `recommender.py` sends a list of ingredients and
optional preferences to a language model and splits the completion it gets
back into a title and a body. The model call is plumbing; the logic lives in
two text routines, and these are what this project models and proves:

- `extract_recipe_parts` strips the completion and splits it into lines. It
  scans for the first line that is non-blank once stripped and does not
  start with `-`. It drops every `Title:` from that line and strips the
  result. If nothing usable is found, it falls back to the first line,
  stripped, with `Title:` left in. The body is always the completion,
  untouched.
- `get_recipe_with_parameters` builds the prompt context: five parts in a
  fixed order, joined with line breaks. Each optional field falls back to a
  default when Python treats it as false (`None`, `0`, `[]`, `""`).
  `get_recipe` only joins the ingredients with `", "`.

`text.dfy` (module `Text`) models the Python string operations these
routines use. Each comes with lemmas that pin down its meaning:
- `str.strip()`, with Python's full `isspace` set;
- `str.split('\n')`;
- `sep.join(xs)`;
- `str.replace(old, "")`;
- `str(int)`.

`recommender.dfy` (module `Recommender`) holds the following:
- the title scan as a method with a loop, proved equal to the function
  `ExtractTitle`;
- the context builder as a method that appends part by part, proved equal
  to `ContextParts` joined with `"\n"`;
- the two request methods, which take the model's completion as an input;
- lemmas stating what the source promises about each.

## Model

| member | source | states |
|---|---|---|
| Recommender.ExtractRecipeParts | recommender.py:93-117 | the scan with early exit and fallback returns exactly `ExtractTitle(recipeText)` as the title and the completion itself as the content |
| Recommender.ExtractTitle | recommender.py:103-115 | the title is the first candidate line read off as `TitleFromLine` when that is non-empty, else the first line stripped; the result never starts or ends with whitespace |
| Recommender.FirstCandidate | recommender.py:107-109 | the index found, if any, is of a non-blank line not starting with `-`, and every line before it is blank or a bullet; when none is found, no line qualifies |
| Recommender.IsTitleCandidate | recommender.py:108-109 | a line qualifies when, stripped, it is non-empty and does not start with `-` |
| Recommender.FirstCandidateIs | recommender.py:107-111 | a qualifying line with no qualifying line before it is the one the scan stops at |
| Recommender.TitleFromFirstCandidate | recommender.py:107-111 | when the first qualifying line still has text once `Title:` is dropped and it is stripped, that text is the title |
| Recommender.TitleFromLine | recommender.py:108-110 | the text read off a line is the stripped line with every `Title:` dropped, stripped again; it never starts or ends with whitespace |
| Recommender.FallbackKeepsFirstLine | recommender.py:113-115 | with no qualifying line the title is the first line, stripped |
| Recommender.FallbackOnEmptyCandidate | recommender.py:110-115 | when the first qualifying line is empty once `Title:` is dropped, the title is the first line, stripped, with `Title:` kept |
| Recommender.MarkerOnlyLine | recommender.py:110-115 | the completion `Title:` yields the title `Title:` |
| Recommender.TitleAfterBullet | recommender.py:107-110 | a bullet line is skipped and `Title: <name>` on the next line yields `<name>` |
| Recommender.TitleOnSecondLine | recommender.py:107-111 | after a bullet line, a qualifying second line that still has text once `Title:` is dropped gives the title |
| Recommender.BulletSkipped | recommender.py:109 | a stripped line starting with `-` never qualifies |
| Recommender.SecondLineTitle | recommender.py:107-111 | with a non-qualifying first line and a qualifying second line that still has text once `Title:` is dropped, the title comes from the second line |
| Recommender.TwoLines | recommender.py:103 | two non-empty stripped lines without breaks, joined by one break, split back into those two lines |
| Recommender.MarkedLine | recommender.py:108-110 | `Title: <name>` qualifies and yields `<name>` when `<name>` holds no further marker |
| Recommender.MarkerDroppedMidLine | recommender.py:110 | the first `Title:` of a line is dropped wherever it stands, and the text before it is kept in order, e.g. `Recipe Title: Nasi Goreng` gives `Recipe  Nasi Goreng` |
| Recommender.MarkerAfterCapital | recommender.py:110 | text before the marker may hold a `T`: `The Title: X` gives `The  X` |
| Recommender.TitleEmptyIffBlank | recommender.py:103-115 | the title is empty exactly when the completion is all whitespace |
| Recommender.TitleShape | recommender.py:110-115 | the title never starts or ends with whitespace and holds no line break |
| Recommender.TitleChars | recommender.py:103-115 | every character of the title occurs in the completion |
| Recommender.TitleFromLineChars | recommender.py:108-110 | the text read off a line is made of that line's characters |
| Recommender.Lines | recommender.py:103 | splitting the stripped completion always yields at least one line |
| Recommender.BuildContext | recommender.py:159-182 | appending the five parts branch by branch gives exactly `ContextParts` joined with `"\n"` |
| Recommender.ContextParts | recommender.py:162-180 | the context always has exactly five parts |
| Recommender.IngredientsLine | recommender.py:159-163 | the first part: `Main Ingredients Available: ` and the ingredients joined by `", "` in input order |
| Recommender.ServingsLine | recommender.py:164 | the second part: `Servings: ` and `str(servings or 2)` |
| Recommender.DietaryLine | recommender.py:167-170 | the third part: the restrictions joined by `", "`, or `None specified` when absent or empty |
| Recommender.CuisineLine | recommender.py:172-175 | the fourth part: the cuisine, or `Any` when absent or empty |
| Recommender.CookingTimeLine | recommender.py:177-180 | the fifth part: `Maximum Cooking Time: N minutes` for a non-zero time, else `Cooking Time: Not specified` |
| Recommender.ContextLines | recommender.py:162-182 | when no field holds a line break, splitting the joined context on `"\n"` gives back the five parts in order |
| Recommender.NoBreakInLines | recommender.py:162-180 | no context part holds a line break when no field does |
| Recommender.IngredientsLineNoBreak | recommender.py:159-163 | the ingredients part holds no line break when no ingredient does |
| Recommender.ServingsLineNoBreak | recommender.py:164 | the servings part holds no line break |
| Recommender.DietaryLineNoBreak | recommender.py:167-170 | the dietary part holds no line break when no restriction does |
| Recommender.CuisineLineNoBreak | recommender.py:172-175 | the cuisine part holds no line break when the cuisine does not |
| Recommender.CookingTimeLineNoBreak | recommender.py:177-180 | the cooking-time part holds no line break |
| Recommender.ServingsOrDefault | recommender.py:164 | `servings or 2` is never zero |
| Recommender.ServingsDefault | recommender.py:164 | the part reads `Servings: 2` exactly when servings is absent, zero or two |
| Recommender.DietaryDefault | recommender.py:167-170 | the part reads `None specified` exactly when the list is absent or empty, or its entries join to those words |
| Recommender.CuisineDefault | recommender.py:172-175 | the part reads `Any` exactly when the cuisine is absent, empty or `Any` |
| Recommender.CookingTimeDefault | recommender.py:177-180 | the part reads `Cooking Time: Not specified` exactly when the time is absent or zero; every other value, negative ones included, gives a maximum |
| Recommender.GetRecipe | recommender.py:120-137 | the ingredients are sent joined by `", "`, and the completion is split as `extract_recipe_parts` does |
| Recommender.GetRecipeWithParameters | recommender.py:140-186 | the context sent is `ContextParts` joined with `"\n"`, and the completion is split as `extract_recipe_parts` does |
| Text.IsSpace | recommender.py:108 | a character is whitespace for `strip()` exactly when Python's `str.isspace()` accepts it: TAB to CR, FS to US, SPACE, NEL, NBSP and the Unicode space and line/paragraph separators |
| Text.Trim | recommender.py:108 | the result of `strip()` neither starts nor ends with whitespace and is no longer than the input |
| Text.TrimLeft | recommender.py:108 | `lstrip()` never lengthens the text; `TrimLeftShape` and `TrimLeftPadded` pin down what it drops |
| Text.TrimRight | recommender.py:108 | `rstrip()` never lengthens the text; `TrimRightShape` and `TrimRightPadded` pin down what it drops |
| Text.TrimLeftShape | recommender.py:108 | `lstrip` keeps a suffix not starting with whitespace and drops only whitespace |
| Text.TrimRightShape | recommender.py:108 | `rstrip` keeps a prefix not ending in whitespace and drops only whitespace |
| Text.TrimEmptyIff | recommender.py:103 | stripping leaves nothing exactly when the text is all whitespace |
| Text.TrimEnds | recommender.py:108 | the stripped text has no whitespace at its ends, and is empty for all-whitespace input |
| Text.TrimEmpty | recommender.py:108 | an empty strip result means the input was all whitespace |
| Text.TrimChars | recommender.py:108 | stripping adds no character |
| Text.TrimKeepsChars | recommender.py:108 | every character left after stripping is one of the input's |
| Text.AllSpaceConcat | recommender.py:108 | a concatenation is all whitespace exactly when both parts are |
| Text.TrimUnique | recommender.py:108 | whitespace around a stripped text is exactly what `strip()` removes |
| Text.TrimLeftPadded | recommender.py:108 | `lstrip` removes exactly a leading run of whitespace |
| Text.TrimRightPadded | recommender.py:108 | `rstrip` removes exactly a trailing run of whitespace |
| Text.TrimLeadingBlank | recommender.py:110 | a single blank before a stripped text is removed |
| Text.TrimIdempotent | recommender.py:108 | stripping twice is stripping once |
| Text.Split | recommender.py:103 | `split` always gives at least one piece |
| Text.SplitAvoids | recommender.py:103 | no piece of a split holds the separator |
| Text.SplitChars | recommender.py:103 | every piece is made of characters of the text |
| Text.SplitNoSeparator | recommender.py:103 | a text without the separator splits into itself alone |
| Text.SplitAfterPiece | recommender.py:103 | a separator-free piece followed by the separator splits off as the first piece |
| Text.SplitFirstPiece | recommender.py:103 | the first piece starts with the text's first character unless that is the separator |
| Text.Join | recommender.py:182 | `sep.join(xs)`; `JoinSplit`, `SplitJoin` and `JoinConcat` pin down its meaning |
| Text.JoinSplit | recommender.py:182 | joining the pieces of a split with the separator restores the text |
| Text.SplitJoin | recommender.py:182 | splitting a join of separator-free pieces gives the pieces back |
| Text.JoinConcat | recommender.py:131 | joining two non-empty lists puts one separator between their joins |
| Text.JoinAvoids | recommender.py:131 | a character in neither the pieces nor the separator is not in the join |
| Text.RemoveAll | recommender.py:110 | `replace('Title:', '')` never lengthens the text |
| Text.RemoveAllChars | recommender.py:110 | removal only drops characters: the result's multiset is within the input's |
| Text.RemoveAllUnchanged | recommender.py:110 | the line changes exactly when `Title:` occurs in it |
| Text.RemoveAllShrinks | recommender.py:110 | an occurrence of the pattern makes the result strictly shorter |
| Text.RemoveAllNoOccurrence | recommender.py:110 | without an occurrence the text is kept as it is |
| Text.RemoveAllKeepsPrefix | recommender.py:110 | text inside which no occurrence of the pattern starts is kept unchanged and in order, and the removal goes on after it |
| Text.ReplaceIsSinglePass | recommender.py:110 | one pass: `TiTitle:tle:` becomes `Title:`, a marker that the removal brought together |
| Text.DigitChar | recommender.py:164 | a digit value prints as the matching decimal digit |
| Text.NatToString | recommender.py:164 | `str` of a natural number is non-empty decimal digits, without a leading zero, that read back as the number |
| Text.IntToString | recommender.py:164 | `str` of an integer is never empty |
| Text.IntToStringDigits | recommender.py:164 | `str(n)` starts with `-` exactly for negative `n`, holds no line break, and its digits read back as the magnitude of `n` |
| Text.IntToStringInjective | recommender.py:164 | different integers print differently |

## Left out

- `RecipeRecommender.__init__` is not modelled: the environment lookup, the client construction, and the prompt templates and chains. These are foreign library calls and fixed template text.
- The `.invoke` calls to the language model and reading `response.content` are not modelled. The completion text is a parameter of `GetRecipe` and `GetRecipeWithParameters`.
- The `servings` value that `get_recipe` passes to its prompt template only shapes the prompt text, so it is not modelled.
- `main.py` is not part of this model. It covers the web framework, the API-key check, request and response models, the streaming endpoints and the error handler. These are all I/O and framework plumbing.
- `IsSpace` covers the characters Python's `str.isspace()` accepts. No other Unicode processing takes place on these paths.
- Text.IntToString: prints every integer, while Python 3.11 and later (and the 2022 security releases of 3.7 to 3.10) raise `ValueError` when converting an integer of more than 4300 decimal digits (the default `sys.get_int_max_str_digits()`). The `servings` and `cooking_time` parts of the context therefore never fail in the model, where the source raises for such huge values.
- Python's dynamic typing is not modelled: inputs have the declared types (`Option` stands for `Optional`).
