# Audio sentiment analyzer: first-party logic in Dafny

The audio sentiment analyzer is a single Streamlit script, `audio.py`. It takes an uploaded MP3 and converts it to WAV with ffmpeg. Google speech recognition transcribes the WAV. The transcript is cleaned, scored with the VADER lexicon, and the score is turned into a label. Nearly all of this is delegated to outside libraries. The first-party logic consists of three pure functions, and this project models and proves properties of them:

- **`clean_text`** (`normalizer.dfy`, module `Normalizer`). It is a regular-expression deletion of every character outside `[a-zA-Z\s]`, followed by `lower()` and `strip()`.
  - The call passes `re.I | re.A` (the value 258) in the position of `re.sub`'s `count` parameter.
  - As a result, only the first 258 such characters are deleted, and `\s` keeps its Unicode meaning.
  - `CleanText` models the call as written. `CleanTextIntended` models the call with those flags and no limit.
- **`score_to_label`** (`label_mapper.dfy`, module `LabelMapper`). It is a three-way threshold on the compound score, at 0.05 and -0.05.
- **The WAV file name in `convert_mp3_to_wav`** (`converter.dfy`, module `Converter`). It is the uploaded name with every ".mp3" replaced by ".wav". Whether the ffmpeg run succeeds is a parameter.

`py_strings.dfy` (module `PyStrings`) states the Python string primitives these rely on, over `seq<char>`:
- `str.isspace`, which is also the Unicode `\s`;
- the ASCII `\s`;
- ASCII `str.lower`;
- `str.strip`;
- `str.replace`;
- an order-preserving filter used to say which characters survive.

Two places where the code does less than it evidently means to:
- **Text normaliser.** Flag names are handed to `re.sub`, and the comment at audio.py:44 says the text is cleaned before analysis. Both show that the intent was to strip every non-letter, with the flags applied.
  - As written, the call deletes at most 258 characters. With at most 258 disallowed characters in the input, the output is letters and whitespace only and `clean_text` is idempotent (`CleanTextOnlyLettersAndSpace`, `CleanTextIdempotent`). The converse, that more than 258 leave a disallowed character and break idempotence, holds for survivors with no Unicode lower-case mapping, such as punctuation and digits; it is proved under ASCII lower-casing (`CleanTextKeepsLateNoise`, `CleanTextIdempotent`, see "## Left out").
  - The intended call gives both on every input (`CleanTextIntendedOnlyLettersAndSpace`, `CleanTextIntendedIdempotent`).
- **WAV file name.** The name is derived by replacing every ".mp3" anywhere in the uploaded name, not only a final extension, and the match is case-sensitive. A name without ".mp3", such as "SONG.MP3", comes back unchanged, so ffmpeg is then asked to write over its own input (`WavNameDiffers`). ffmpeg refuses an output file that is the same as its input, so the conversion fails and `convert_mp3_to_wav` returns `None`; in the model this is the case `transcodeSucceeds` false.

## Model

| member | source | states |
|---|---|---|
| PyStrings.IsSpace | audio.py:46-48 | the 29 characters of `str.isspace`, which `\s` matches without re.A and `strip()` removes: 0x09-0x0D, 0x1C-0x20, U+0085, U+00A0, U+1680, U+2000-U+200A, U+2028, U+2029, U+202F, U+205F, U+3000 |
| PyStrings.IsAsciiSpace | audio.py:46 | `\s` under re.A: space, tab, line feed, carriage return, form feed and vertical tab |
| PyStrings.SpaceClasses | audio.py:46-48 | the re.A class is exactly those six characters and all of them are `str.isspace`; below 0x80 the Unicode class adds only 0x1C-0x1F; the no-break space and U+3000 are whitespace only without re.A, the zero-width space and U+FEFF are not whitespace |
| PyStrings.LowerChar | audio.py:47 | 'A'..'Z' become the corresponding 'a'..'z' (same offset from 'a' as from 'A'); every other character, lower-case letters included, is unchanged; the result is never upper case |
| PyStrings.Lower | audio.py:47 | lower() keeps the length of the string, mapping it character by character with LowerChar |
| PyStrings.LowerNoCapitals | audio.py:47 | after lower() no ASCII capital is left and each position holds a letter exactly when it did before |
| PyStrings.LowerAppend | audio.py:47 | lower-casing distributes over concatenation |
| PyStrings.LowerNoUpper | audio.py:47 | a string without upper-case letters is unchanged by lower(), so lower() is idempotent |
| PyStrings.TrimStart | audio.py:48 | the result is a suffix of the input; what was cut is all whitespace; the result does not start with whitespace |
| PyStrings.TrimEnd | audio.py:48 | the result is a prefix of the input; what was cut is all whitespace; the result does not end with whitespace |
| PyStrings.Strip | audio.py:48 | strip() output neither begins nor ends with whitespace and is no longer than its input |
| PyStrings.StripSplit | audio.py:48 | the input is the stripped string with an all-whitespace prefix and suffix around it |
| PyStrings.StripFilter | audio.py:48 | stripping does not change which non-whitespace characters a string holds, or their order |
| PyStrings.StripFixed | audio.py:48 | a string that neither starts nor ends with whitespace is its own strip |
| PyStrings.Replace | audio.py:20 | str.replace with a pattern and replacement of equal length preserves length |
| PyStrings.ReplaceAbsent | audio.py:20 | str.replace returns the string unchanged when the pattern does not occur in it |
| Normalizer.Disallowed | audio.py:46 | the characters matched by `[^a-zA-Z\s]`: not an ASCII letter and not whitespace, with `\s` the Unicode `str.isspace` set without re.A and `[ \t\n\r\f\v]` with it |
| Normalizer.DisallowedExamples | audio.py:46 | '!', '.', '7' and the Kelvin sign are matched, letters and whitespace are not; the no-break space is matched only under re.A |
| Normalizer.RemoveFirst | audio.py:46 | a deletion limited to `budget` matches never lengthens the string |
| Normalizer.RemoveFirstKept | audio.py:46 | every character the pattern does not match survives, in order |
| Normalizer.RemoveFirstNoise | audio.py:46 | of the disallowed characters exactly those after the first `budget` survive, in order |
| Normalizer.RemoveFirstSplit | audio.py:46 | if the prefix `a` holds exactly `budget` disallowed characters, the result for `a + b` is `a` without them followed by `b` unchanged, so survivors stay in place |
| Normalizer.RemoveFirstLength | audio.py:46 | the output is shorter by exactly min(budget, number of disallowed characters) |
| Normalizer.RemoveFirstLetters | audio.py:46 | the deletion never touches an ASCII letter |
| Normalizer.RemoveFirstAll | audio.py:46 | a budget covering all disallowed characters removes all of them and nothing else |
| Normalizer.RemoveFirstNothing | audio.py:46 | with a zero budget or nothing to delete, the string is returned unchanged |
| Normalizer.ReSub | audio.py:46 | re.sub with count 0 removes every match; with a positive count every unmatched character survives, in order, and exactly the matches after the first `count` survive, in order |
| Normalizer.ReSubSplit | audio.py:46 | with a positive count, the prefix holding the first `count` matches loses them and the rest of the string is untouched |
| Normalizer.CountArgumentIs258 | audio.py:46 | the value passed as count is the bitwise or of re.I (2) and re.A (256), which is 258 |
| Normalizer.CleanText | audio.py:45-49 | clean_text output never begins or ends with whitespace (the empty output included) and is never longer than the input |
| Normalizer.LowerKeepsNoise | audio.py:47 | lower() leaves the characters outside letters and whitespace as they are |
| Normalizer.LowerLetters | audio.py:47 | the letters of the lower-cased string are the lower-cased letters of the string |
| Normalizer.StripKeepsNoise | audio.py:48 | strip() keeps every character outside letters and whitespace |
| Normalizer.StripKeepsLetters | audio.py:48 | strip() keeps every ASCII letter, in order |
| Normalizer.StripChars | audio.py:48 | every character of the stripped string comes from the input |
| Normalizer.CleanTextNoise | audio.py:46-48 | the disallowed characters in clean_text's output are exactly those of the input after the 258th, in order |
| Normalizer.CleanTextOnlyLettersAndSpace | audio.py:46-48 | with at most 258 disallowed characters in the input, the output holds only lower-case ASCII letters and whitespace |
| Normalizer.CleanTextKeepsLateNoise | audio.py:46 | with more than 258 disallowed characters, the output still contains a disallowed character |
| Normalizer.CleanTextLetters | audio.py:46-48 | the ASCII letters of the output are those of the input, in order, lower-cased |
| Normalizer.PipelineFixed | audio.py:45-49 | input with nothing to delete, no upper-case letter and no whitespace at either end passes through deletion, lower() and strip() unchanged |
| Normalizer.CleanTextFixed | audio.py:45-49 | already-clean text (lower-case letters and whitespace, trimmed) is a fixed point of clean_text |
| Normalizer.CleanTextIdempotent | audio.py:45-49 | clean_text(clean_text(t)) == clean_text(t) if and only if t has at most 258 disallowed characters |
| Normalizer.CleanTextIntended | audio.py:45-49 | the intended clean_text output never begins or ends with whitespace and is never longer than the input |
| Normalizer.CleanTextIntendedOnlyLettersAndSpace | audio.py:45-49 | on every input, the intended clean_text yields only lower-case ASCII letters and ASCII whitespace |
| Normalizer.CleanTextIntendedIdempotent | audio.py:45-49 | the intended clean_text is idempotent on every input |
| Normalizer.KeptAgree | audio.py:46 | without non-ASCII whitespace, the Unicode and ASCII readings of the pattern keep the same characters |
| Normalizer.CleanTextAgreesWithIntended | audio.py:45-49 | on input with at most 258 disallowed characters and only ASCII whitespace, the code as written equals the intended version |
| Normalizer.ReSubSentence | audio.py:46 | a sentence of letters and whitespace followed by one disallowed character loses exactly that character |
| Normalizer.CleanTextSentence | audio.py:45-49 | a trimmed sentence of letters and whitespace followed by a full stop cleans to the lower-cased sentence |
| Normalizer.UnintelligibleMessageCleans | audio.py:40 | the unintelligible-audio message cleans to "speech recognition could not understand the audio" |
| Normalizer.ReSubBangs | audio.py:46 | the deletion applied to 259 exclamation marks leaves one |
| Normalizer.CleanTextBangs | audio.py:45-49 | clean_text of 259 exclamation marks is "!", which is not letters and whitespace |
| Converter.WavFileName | audio.py:20 | the WAV name has the same length as the uploaded name |
| Converter.ConvertMp3ToWav | audio.py:18-30 | a name is returned exactly when transcoding succeeds, and it is WavFileName of the input: same length, no ".mp3" left |
| Converter.WavNameHasNoMp3 | audio.py:20 | the WAV name contains no ".mp3" anywhere |
| Converter.WavNameReplacesEach | audio.py:20 | every ".mp3" of the uploaded name reads ".wav" at the same position of the WAV name |
| Converter.WavNameKeepsOthers | audio.py:20 | every character outside the ".mp3" occurrences is copied to the same position |
| Converter.WavNameDiffers | audio.py:20-24 | the WAV name differs from the uploaded name if and only if the uploaded name contains ".mp3"; otherwise ffmpeg's output path equals its input path |
| Converter.WavNameOfMp3File | audio.py:20 | "base.mp3", with no other ".mp3" in base, becomes "base.wav" |
| LabelMapper.ScoreToLabel | audio.py:57-63 | Positive exactly when score >= 0.05; Negative exactly when score <= -0.05; Neutral exactly when -0.05 < score < 0.05 |
| LabelMapper.LabelText | audio.py:59-63 | the strings "Positive", "Negative" and "Neutral" returned at lines 59, 61 and 63 |
| LabelMapper.LabelTextInjective | audio.py:59-63 | the three labels are shown as three different strings |
| LabelMapper.ScoreToLabelMonotone | audio.py:57-63 | a higher score never gets a lower label (Negative < Neutral < Positive) |
| LabelMapper.ScoreToLabelSymmetric | audio.py:58-61 | negating the score swaps Positive and Negative and keeps Neutral |
| LabelMapper.ScoreToLabelBoundaries | audio.py:58-63 | 0.05 gives Positive, -0.05 gives Negative, 0 gives Neutral, and ±0.0499 give Neutral |

## Left out

- The ffmpeg transcoding (audio.py:21-26) is an external process and file I/O. `ConvertMp3ToWav` takes its outcome as a boolean, and any exception becomes `None`. The diagnostic print at line 29 is not modelled.
- Speech recognition (audio.py:33-42) is a network call to an outside service. Only the unintelligible-audio message is modelled, as a constant. The API-error message embeds the exception text and is not modelled.
- `calculate_sentiment_score` (audio.py:52-54) is the VADER lexicon model, which is foreign code computing floats.
- The Streamlit UI, the upload write and the temporary-file deletion (audio.py:66-107) are I/O. On the failure branch (line 107) the uploaded MP3 is not removed.
- The pandas DataFrame plumbing (audio.py:86-98) is library wrapper code with no logic of its own.
- Scores are `real`, not IEEE doubles. There is no NaN, which Python would map to Neutral, and 0.05 is exact, whereas as a double it is slightly above 0.05.
- PyStrings.Lower: only the ASCII case mapping is modelled, not Unicode `str.lower`.
  - When clean_text has deleted every disallowed character, the characters left are ASCII letters and whitespace, and on those the two agree.
  - Unicode letters left beyond the 258th deletion would be lower-cased by Python but are left alone here. The next five lines name what that changes.
- Normalizer.CleanText: "never longer than the input" holds under ASCII lower-casing only. Python lower-cases U+0130 to two characters, so 258 '!' followed by 259 U+0130 (517 characters) gives 518.
- Normalizer.CleanTextNoise: holds under ASCII lower-casing only. A surviving disallowed character with a Unicode lower-case mapping is changed by Python. For example, the Kelvin sign U+212A becomes the ASCII letter 'k'.
- Normalizer.CleanTextKeepsLateNoise: holds under ASCII lower-casing only. 258 '!' followed by the Kelvin sign cleans to "k" in Python, which has no disallowed character left.
- Normalizer.CleanTextLetters: holds under ASCII lower-casing only. A surviving non-ASCII letter that Python lower-cases to an ASCII letter, like the Kelvin sign, adds a letter to the output.
- Normalizer.CleanTextIdempotent: the "only if" direction holds under ASCII lower-casing only. Python's clean_text of 258 '!' followed by the Kelvin sign is "k", which is a fixed point.
- Normalizer.Disallowed: the as-written call has no flags, so the regular expression is case-sensitive. Case-insensitive Unicode matching, which is relevant only with re.I and without re.A, does not arise in either version.
- PyStrings.Replace: an empty pattern is excluded. The source always passes ".mp3".
- From Python 3.13 on, passing `count` positionally raises a DeprecationWarning. Warnings are not modelled.

## Findings

| source | as written | input that shows it | evidently intended | confidence | as-written member | corrected member |
|---|---|---|---|---|---|---|
| audio.py:46 | `re.I \| re.A` is passed positionally as `count` (258): at most 258 disallowed characters are deleted, with default (Unicode) `\s` | 259 exclamation marks clean to "!" (`Normalizer.CleanTextBangs`); any input with more than 258 disallowed characters whose survivors have no Unicode lower-case mapping (punctuation, digits) keeps one (`Normalizer.CleanTextKeepsLateNoise`) and is not idempotent (`Normalizer.CleanTextIdempotent`) | `flags=re.I \| re.A` with no count: every character outside `[a-zA-Z \t\n\r\f\v]` deleted, output only lower-case letters and ASCII whitespace, idempotent | not executed | Normalizer.CleanText | Normalizer.CleanTextIntended |
