# misspell's not-words filter, in Dafny

The misspell spell checker does not look words up in text that is not prose.
Before it checks text, it overwrites file system paths, e-mail addresses and
host names with spaces. Each replacement has exactly as many spaces as the bytes it
replaces, so every remaining word keeps its byte offset. This project models that
filter (`vendor/github.com/client9/misspell/notwords.go`) and proves what
it promises:

- `RemovePath` is modelled as the loop it is, a method over the remaining text
  `s` and the output buffer `out`. It is proved equal to `Removed`, a
  recursive function that performs one loop turn (`Scan`) per call. The
  loop invariant says that the buffer followed by `Removed` of the rest is
  `Removed` of the whole input.
- The lemmas about `Removed` cover:
  - the output has the input's length;
  - every byte is kept or turned into a space;
  - newlines always survive;
  - text without a slash is unchanged;
  - `and/or`-style slashes are kept;
  - how paths after `[`, `(` and whitespace are blanked, including a slash at
    the front of the text;
  - an unterminated path is copied unchanged and ends the scan.
- `replaceWithBlanks`, `RemoveEmail`, `RemoveHost` and `RemoveNotWords` are
  functions. The matches of the two regular expressions are a parameter, and
  blanking them is proved to blank exactly the matched bytes.

Module `GoLib` (`golib.dfy`) holds the few Go library routines the filter
calls: `strings.IndexByte`, `strings.IndexAny`, `strings.Repeat` /
`bytes.Repeat` and `Regexp.ReplaceAllStringFunc`. Each has a contract stating what
Go documents. A Go string is a sequence of bytes; here one `char` stands for
one byte, and every delimiter the filter looks for is ASCII.

## Model

| member | source | states |
|---|---|---|
| NotWords.RemovePath | vendor/github.com/client9/misspell/notwords.go:17-55 | the returned buffer is `Removed(input)`, as long as the input, each byte the input's byte or a space, and the input itself when it has no slash |
| NotWords.Terminators | vendor/github.com/client9/misspell/notwords.go:30-42 | every terminator class holds the newline and never the slash |
| NotWords.Scan | vendor/github.com/client9/misspell/notwords.go:20-51 | one loop turn consumes at least one byte and no more than remain, so the loop ends |
| NotWords.Removed | vendor/github.com/client9/misspell/notwords.go:17-55 | the filtered text has exactly the input's length |
| NotWords.StepNoSlash | vendor/github.com/client9/misspell/notwords.go:21-23 | with no slash left, writing the rest completes the result |
| NotWords.StepCopy | vendor/github.com/client9/misspell/notwords.go:38-41 | after a byte that starts no path, copying through the slash keeps the loop invariant |
| NotWords.StepBlank | vendor/github.com/client9/misspell/notwords.go:44-48 | copying through the delimiter and writing `endx` spaces keeps the loop invariant |
| NotWords.StepUnterminated | vendor/github.com/client9/misspell/notwords.go:49-51 | with no terminator after the path, writing the rest completes the result |
| NotWords.ScanBlanksNoNewline | vendor/github.com/client9/misspell/notwords.go:44-48 | the bytes a turn blanks never include a newline |
| NotWords.RemovedOnlyBlanks | vendor/github.com/client9/misspell/notwords.go:17-55 | each output byte is the input byte at that index, or a space where the input byte is not a newline |
| NotWords.RemovedKeepsOrBlanks | vendor/github.com/client9/misspell/notwords.go:39-50 | the output has the input's length and each output byte is the input byte at that index or a space |
| NotWords.RemovedKeepsNewlines | vendor/github.com/client9/misspell/notwords.go:32-37 | an output byte is a newline if and only if the input byte at that index is one |
| NotWords.RemovedNoSlash | vendor/github.com/client9/misspell/notwords.go:21-23 | text without a slash comes back unchanged |
| NotWords.RemovedKeepsBeforeFirstSlash | vendor/github.com/client9/misspell/notwords.go:21-41 | every byte before the first slash is copied unchanged |
| NotWords.RemovedFirstByte | vendor/github.com/client9/misspell/notwords.go:21-41 | text that does not start with a slash keeps its first byte |
| NotWords.WordSlashKept | vendor/github.com/client9/misspell/notwords.go:31-41 | a slash after a byte other than whitespace, `[` or `(` is copied with all before it, and filtering goes on after it |
| NotWords.TerminatedPathBlanked | vendor/github.com/client9/misspell/notwords.go:30-48 | a path from the first slash up to the first terminator of the class its delimiter selects becomes spaces; the delimiter, what precedes it and the terminator are kept |
| NotWords.DelimitedPathBlanked | vendor/github.com/client9/misspell/notwords.go:30-48 | `p + [c] + "/" + path + [t] + rest` becomes `p + [c]`, then `1 + |path|` spaces, then the result for `[t] + rest`, which keeps `t` |
| NotWords.BracketedPathBlanked | vendor/github.com/client9/misspell/notwords.go:34-48 | a path after `[` (`(`) is blanked up to the first `]` (`)`) or newline; the bracket and the terminator are kept |
| NotWords.WhitespacePathBlanked | vendor/github.com/client9/misspell/notwords.go:32-48 | a path after a space, tab, newline or carriage return is blanked up to the next of those; both are kept |
| NotWords.LeadingSlashPathBlanked | vendor/github.com/client9/misspell/notwords.go:26-48 | a slash at the front of the text is kept and only the bytes after it, up to whitespace, become spaces |
| NotWords.UnterminatedPathKept | vendor/github.com/client9/misspell/notwords.go:49-51 | a path with no terminator after it leaves the whole remaining text unchanged |
| NotWords.UnterminatedLeadingSlashKept | vendor/github.com/client9/misspell/notwords.go:49-51 | a leading slash with no whitespace after it leaves the text unchanged |
| NotWords.ReplaceWithBlanks | vendor/github.com/client9/misspell/notwords.go:57-60 | as many bytes as the input, all spaces |
| NotWords.BlankedMatches | vendor/github.com/client9/misspell/notwords.go:64 | replacing matches with replaceWithBlanks turns exactly the matched bytes into spaces and keeps every other byte at its index |
| NotWords.BlankMatches | vendor/github.com/client9/misspell/notwords.go:64 | the result has the input's length; a byte is a space where a match covers it and the input byte elsewhere |
| NotWords.RemoveEmail | vendor/github.com/client9/misspell/notwords.go:63-65 | length kept; exactly the bytes of the e-mail matches become spaces |
| NotWords.RemoveHost | vendor/github.com/client9/misspell/notwords.go:68-70 | length kept; exactly the bytes of the host-name matches become spaces |
| NotWords.RemoveNotWords | vendor/github.com/client9/misspell/notwords.go:73-76 | paths, then e-mail addresses, then host names: the result has the length of its input and differs from it only by spaces |
| GoLib.IndexByte | vendor/github.com/client9/misspell/notwords.go:21 | the index of the first occurrence of the byte, or -1 exactly when it does not occur |
| GoLib.IndexAny | vendor/github.com/client9/misspell/notwords.go:44 | the index of the first byte in the class, or -1 exactly when none occurs |
| GoLib.Repeat | vendor/github.com/client9/misspell/notwords.go:47 | `n` bytes, each the given byte |
| GoLib.ReplaceAllStringFunc | vendor/github.com/client9/misspell/notwords.go:64 | when every replacement is as long as the text it replaces: the result is as long as the input, each byte outside the matches stays at its index, and each match's bytes are `repl` of the matched text |

## Left out

- The regular expressions `reEmail` and `reHost` (notwords.go:9-10): Go's `regexp` matching is not modelled. `RemoveEmail` and `RemoveHost` take the list of matches as a function parameter. A well-formed list is ordered, non-overlapping and inside the text, as `FindAllStringIndex` returns it.
- RemoveEmail: does not state which spans match, because that is the expression's semantics. The stated property holds for any well-formed list of matches.
- RemoveHost: does not state which spans match, for the same reason.
- RemoveNotWords: states length and keep-or-space only, not that newlines survive. The last byte class of `reEmail`, `[^a-zA-Z]`, can match a newline, so an e-mail match can blank one.
- GoLib.ReplaceAllStringFunc: its contract describes the result only when every replacement is as long as the text it replaces, which is the one case the filter uses (replaceWithBlanks). For other replacements the result is given by the definition alone.
- `StripURL` is not part of this model. `RemoveNotWords` is modelled on the text `StripURL` returns.
- `bytes.Buffer` is a `string` variable that the loop appends to; buffer growth and allocation are not modelled.
- Go strings are byte sequences; a `char` stands for one byte. No UTF-8 decoding is modelled. Every delimiter is ASCII, so byte and rune searches agree here.
- `lib/imagec/storage.go` is not part of this model: a client for the image store's network API.
- `VmPowerOnTest.java` is not part of this model: a declarative UI test whose logic lives in the UI-automation framework it composes (`NGCTestWorkflow` and its step classes).
