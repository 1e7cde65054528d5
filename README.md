# clusterDBLa: verified model of the read cleaner, FASTA reader and binariser

`clusterDBLa.py` prepares amplicon reads for OTU clustering with the external
`usearch` tool. It renames the reads into the header convention `usearch`
expects, runs `usearch`, and turns the OTU abundance table it gets back into a
presence/absence matrix. This project models the three pieces of that script
that are its own logic, and proves properties of them in Dafny:

- `readFasta` (module `Fasta`). This is a single pass over the lines of a FASTA
  file. It keeps the current record name and the sequence lines read since the
  last header. The method `ReadFasta` is proved equal to `Records`, a
  structural reading of the file: each header line opens a record, the
  right-stripped text after `>` is its name, and its sequence is the right-stripped
  non-header lines up to the next header. Records with empty names are dropped,
  and so are lines before the first header.
- The loop of `checkInputAndClean` (module `Headers`). For each record the
  loop:
  - remembers the dedup key (the text before the first `;`) in a set;
  - rewrites the header with `NormalizeHeader`;
  - writes `">" + h + "\n" + s + "\n"`.

  `NormalizeHeader` is a pure function with three branches:
  - a `sample=` header loses its `size` tokens, but only when it contains
    `size=`;
  - a Rask header (one with a `.`) gets `;sample=<text before the first .>`
    appended;
  - any other header is kept as it is.
- The row loop of `convertToBinaryMatrix` (module `Binary`). The header line is
  copied unchanged. Each row's counts are set to 1 where they are positive, in
  place in an array. The row is written as its first field and its counts,
  joined by tabs.

Module `Strings` models the Python 2 string operations these use:
- `str.rstrip()`;
- `w in s`;
- `s.split(c)` and `c.join(parts)`;
- `''.join(parts)`.

Module `Options` holds the `Option` type for `name`, which starts as `None` in
`readFasta`.

Inputs and outputs are values. A file is read as the sequence of lines Python's
file iteration yields, each with its newline (`Fasta.Lines` gives that split for
a file's text). What is written is a sequence of strings, one per `write` call.

## Model

| member | source | states |
|---|---|---|
| Strings.RStrip | clusterDBLa.py:14 | `line.rstrip()`: the line without its trailing whitespace; characterised by RStripIsLongestPrefix, RStripKeeps and RStripDropsSpace |
| Strings.IsSpace | clusterDBLa.py:14 | the characters Python 2's `str.rstrip()` removes: space and tab through carriage return; RStripIsLongestPrefix and RStripDropsSpace rely on it |
| Strings.RStripIsLongestPrefix | clusterDBLa.py:14 | `rstrip()` keeps a prefix of the line that is empty or ends in a non-whitespace character, and every character it drops is whitespace |
| Strings.RStripKeeps | clusterDBLa.py:14 | a line ending in a non-whitespace character is not changed by `rstrip()` |
| Strings.RStripDropsSpace | clusterDBLa.py:14 | a trailing whitespace character (the newline included) is always removed by `rstrip()` |
| Strings.Contains | clusterDBLa.py:67-74 | Python's `w in s` on strings, as used in `"sample=" in h`, `"size=" in h`, `"size" not in t` and `"." in h`; characterised by ContainsIffOccurs and ContainsChar |
| Strings.ContainsIffOccurs | clusterDBLa.py:67-74 | `w in s` holds exactly when `w` occurs in `s` at some index |
| Strings.ContainsChar | clusterDBLa.py:74 | `"." in h` is membership of the character `.` in `h` |
| Strings.Split | clusterDBLa.py:71 | `s.split(c)` for the one-character separators `;` and `.` (also lines 62 and 76); characterised by SplitCount, SplitPiecesFree, SplitFirst, JoinSplit and SplitJoin |
| Strings.Join | clusterDBLa.py:73 | `";".join(parts)`: the parts with one separator between neighbours; characterised by JoinSplit, SplitJoin and ContainsInJoin |
| Strings.Concat | clusterDBLa.py:17 | `''.join(seq)`, the sequence of a record built from its stripped lines (also line 21); ConcatSnoc states that each appended line extends it |
| Strings.SplitCount | clusterDBLa.py:62 | `s.split(c)` has one more piece than `s` has occurrences of `c` |
| Strings.SplitPiecesFree | clusterDBLa.py:71 | no piece of `s.split(c)` contains `c` |
| Strings.SplitFirst | clusterDBLa.py:62 | the first piece of `s.split(c)` is the prefix of `s` before its first `c`, or all of `s` if there is none |
| Strings.JoinSplit | clusterDBLa.py:71-73 | `c.join(s.split(c)) == s` |
| Strings.SplitJoin | clusterDBLa.py:73 | `c.join(parts).split(c) == parts` for a non-empty list of parts free of `c` |
| Strings.ContainsInJoin | clusterDBLa.py:72-73 | a `c`-free word found in `c.join(parts)` is found in one of the parts |
| Strings.ContainsStartOfWord | clusterDBLa.py:68-72 | a string containing `w + x` contains `w`, so a header free of `size` is free of `size=`; NormalizeIdempotent relies on it |
| Fasta.StartsWithGt | clusterDBLa.py:15 | `line.startswith(">")` on the stripped line: the line is non-empty and its first character is `>`; IsHeaderLine and WellFormed rely on it |
| Fasta.IsHeaderLine | clusterDBLa.py:14-15 | the test of the loop's first branch: the right-stripped line starts with `>`; NextHeader, Records and ReadFasta rely on it |
| Fasta.HeaderName | clusterDBLa.py:14-16 | the name a header line gives its record: the right-stripped line without its `>`; LinesOfEntry shows it recovers a written name |
| Fasta.NextHeader | clusterDBLa.py:13-15 | the result is the index of the first header line at or after `from`, or the end of the file; no line before it is a header |
| Fasta.IsSet | clusterDBLa.py:17-21 | `if name:` (lines 17 and 21): a record is open and its name is not the empty string; Flushed, Records and RecordNames rely on it, so records with empty names are not yielded |
| Fasta.Flushed | clusterDBLa.py:17-21 | what the reader yields (lines 17 and 21) for the open record when it reaches a header or the end of the file: that record if `name` is set, nothing otherwise; Pending, Records and RoundTrip rely on it |
| Fasta.Records | clusterDBLa.py:9-21 | the records of a file read block by block: lines before the first header dropped, each header opening a record that holds the stripped lines up to the next header, empty names dropped; ReadFasta is proved equal to it, RecordNames, PreambleIgnored and RoundTrip characterise it |
| Fasta.Lines | clusterDBLa.py:13 | the lines `for line in fp` yields from a file's text, each with its newline; LinesShape, LinesConcat, LinesOfLine and LinesOfEntry characterise it |
| Fasta.LineLengthShape | clusterDBLa.py:13 | the first line of a text runs up to and including its first newline, or to the end of the text if there is none |
| Fasta.LinesShape | clusterDBLa.py:13 | every line file iteration yields is non-empty, has a newline at most as its last character, and every line but the last ends in a newline |
| Fasta.LinesConcat | clusterDBLa.py:13 | the lines file iteration yields, put back together, are the file's text |
| Fasta.ReadFasta | clusterDBLa.py:9-21 | the records yielded are `Records(lines)`: one per header line with a non-empty name, named by the stripped text after `>`, holding the concatenated stripped lines up to the next header |
| Fasta.RecordNames | clusterDBLa.py:12-21 | the names of the records are the non-empty header names in file order, so the record count is the number of such headers |
| Fasta.PreambleIgnored | clusterDBLa.py:12-20 | lines before the first header line change nothing in what is read |
| Fasta.Entry | clusterDBLa.py:81 | the string `">"+h+"\n"+s+"\n"` written for one record; LinesOfEntry and RoundTrip show how it reads back |
| Fasta.Text | clusterDBLa.py:81 | the whole written file: the entries of the records one after another; RoundTrip reads it back |
| Fasta.LinesOfEntry | clusterDBLa.py:81 | a written well-formed entry comes back from file iteration as a header line naming the record, then one non-header line whose stripped text is the sequence |
| Fasta.RoundTrip | clusterDBLa.py:81 | writing well-formed records as `">"+h+"\n"+s+"\n"` and reading them back with `readFasta` gives the same records in the same order |
| Headers.DedupKey | clusterDBLa.py:62 | `h.split(";")[0]`, the name a read is remembered under; characterised by DedupKeyIsFirstField and KeysOfMembers |
| Headers.DedupKeyIsFirstField | clusterDBLa.py:62 | the dedup key is the prefix of the header before its first `;`, or the whole header if there is no `;` |
| Headers.KeysOf | clusterDBLa.py:62-65 | the contents of `read_set` after the first `n` records: their dedup keys; CleanRecords keeps it as its loop invariant and KeysOfMembers characterises it |
| Headers.KeysOfMembers | clusterDBLa.py:62-65 | after `n` records, a key is in `read_set` exactly when one of those records has it as its dedup key |
| Headers.WithoutSize | clusterDBLa.py:72 | `[t for t in h if "size" not in t]`; characterised by WithoutSizeMembers, WithoutSizeAppend and WithoutSizeCounts |
| Headers.NormalizeHeader | clusterDBLa.py:67-79 | the three-branch header rewrite; characterised by SampleHeaderKept, SizeTokensDropped, RaskHeaderTagged, RaskHeaderExtended, OtherHeaderKept and NormalizeIdempotent |
| Headers.Cleaned | clusterDBLa.py:67-81 | the record written for a record read: header rewritten, sequence unchanged; CleanRecord and CleanRecords write it |
| Headers.WithoutSizeMembers | clusterDBLa.py:72 | the filtered tokens are exactly the tokens that do not contain `size` |
| Headers.WithoutSizeAppend | clusterDBLa.py:72 | the filter works token by token, so kept tokens keep their relative order |
| Headers.WithoutSizeCounts | clusterDBLa.py:72 | a kept token occurs as often as in the input; a `size` token does not occur |
| Headers.SampleHeaderKept | clusterDBLa.py:67-69 | a header with `sample=` and no `size=` is written unchanged |
| Headers.OtherHeaderKept | clusterDBLa.py:78-79 | a header with neither `sample=` nor `.` is written unchanged (the error object changes nothing) |
| Headers.SizeTokensDropped | clusterDBLa.py:69-73 | a header with `sample=` and `size=` becomes the `;`-join of its tokens without `size`, in order; it splits back into those tokens, and neither the result nor any of its tokens contains `size` |
| Headers.RaskHeaderTagged | clusterDBLa.py:74-77 | a header with a `.` and no `sample=` becomes `h + ";sample=" + p`, where `p` is the prefix of `h` before its first `.` |
| Headers.RaskHeaderExtended | clusterDBLa.py:74-77 | the original Rask header is a prefix of the rewritten one, and the rewritten one contains `sample=` |
| Headers.SizeAfterAppend | clusterDBLa.py:77 | appending `";sample=" + p` for a prefix `p` of `h` adds no `size=` |
| Headers.NormalizeIdempotent | clusterDBLa.py:67-77 | rewriting a header a second time changes nothing, when the header has no `size=` or has a `sample=` token that the first rewrite keeps |
| Headers.EntriesText | clusterDBLa.py:81 | writing the entries one after another produces the text read back by `RoundTrip` |
| Headers.CleanRecord | clusterDBLa.py:62-81 | one iteration adds the record's dedup key to `read_set` and writes the record with its header rewritten and its sequence unchanged |
| Headers.CleanRecords | clusterDBLa.py:60-81 | the loop writes one entry per record read, in order, each with its header rewritten and its sequence unchanged; no record is skipped, repeated keys included |
| Headers.CheckInputAndClean | clusterDBLa.py:56-81 | over the lines of the input file, the strings written are the cleaned entries of `Records(lines)` |
| Headers.CleanedReadsBack | clusterDBLa.py:60-81 | reading the cleaned file back with `readFasta` gives the cleaned records, when those are well formed |
| Binary.BinaryCell | clusterDBLa.py:144 | `array[array>0] = 1` on one value: 1 for a positive value, the value itself otherwise |
| Binary.BinarizedCells | clusterDBLa.py:144 | `array[array>0] = 1` on a row's counts; characterised by BinarizedCellsPointwise, BinarizeKeepsPresence, BinarizeIdempotent, BinarizeFixedIff and BinarizeCounts, and BinarizeInPlace computes it |
| Binary.BinarizedRow | clusterDBLa.py:144-146 | the row written for a data row: its first field and its binarised counts; ConvertToBinaryMatrix writes it |
| Binary.BinarizedCellsPointwise | clusterDBLa.py:144 | binarising keeps the number of counts, turns every positive count into 1 and keeps every other count, negative ones included |
| Binary.BinarizeKeepsPresence | clusterDBLa.py:144 | a count is positive after binarising exactly when it was positive before |
| Binary.BinarizeIdempotent | clusterDBLa.py:144 | binarising twice is binarising once |
| Binary.BinarizeFixedIff | clusterDBLa.py:144 | a row is unchanged exactly when none of its counts exceeds 1, so 0/1 rows are fixed points |
| Binary.BinarizeCounts | clusterDBLa.py:144 | non-negative counts become a 0/1 row that has 1 exactly where the count was non-zero |
| Binary.BinarizeInPlace | clusterDBLa.py:144 | after the update in place, the array holds the binarised counts it held before |
| Binary.IntToString | clusterDBLa.py:146 | `str()` of one count of the array; characterised by NatToStringDigits, IntToStringParses and IntToStringIsField |
| Binary.ParseInt | clusterDBLa.py:143 | `int()` on the text `str()` writes for a count: an optional `-`, then the decimal value of the digits; IntToStringParses and FormatRowFields rely on it |
| Binary.CellStrings | clusterDBLa.py:146 | `list(array.astype('str'))`: the text of each count, in order |
| Binary.FormatRow | clusterDBLa.py:145-146 | the line written for a row: its fields joined by tabs, then a newline; characterised by FormatRowFields and OtuRowExample |
| Binary.NatToStringDigits | clusterDBLa.py:146 | the decimal text of a count is a non-empty run of digits whose value is the count, with no leading zero |
| Binary.IntToStringParses | clusterDBLa.py:143-146 | `int(str(v)) == v` for every integer `v` |
| Binary.IntToStringIsField | clusterDBLa.py:146 | the text written for a count is non-empty and has no tab or newline |
| Binary.FormatRowFields | clusterDBLa.py:145-146 | a written row ends in a newline; split on tabs, it is the row's id followed by one field per count, and each field reads back as its count |
| Binary.ConvertToBinaryMatrix | clusterDBLa.py:138-146 | the output is the header line unchanged, then one line per data row, in order, with the row's id and its binarised counts |
| Binary.OtuRowExample | clusterDBLa.py:144-146 | the row `OTU1 3 0 5` is written as `OTU1 1 0 1`, tab-separated |

## Left out

- `cluster()` (clusterDBLa.py:85-130) is left out. It builds three `usearch` command lines and runs them through the shell with `check_call`. That is subprocess plumbing around an external binary.
- The `readable_file` and `writeable_dir` argparse actions (clusterDBLa.py:23-41) are left out. They are file-system existence and permission checks.
- `main()` and the argument parser (clusterDBLa.py:153-188) are left out.
- Opening, reading and writing files is left out, and so are the output-file names built with `os.path` (clusterDBLa.py:58, 133, 138-139):
  - input is a sequence of lines, as Python's file iteration yields them;
  - output is the sequence of strings passed to `write`;
  - the returned output paths are not modelled.
- `readFasta` is a generator that `checkInputAndClean` consumes lazily. The model reads all the records first and then writes them. The strings written are the same.
- The data rows of the OTU table are taken as already tokenised. `line.split()` and the `int()` calls (clusterDBLa.py:142-143) are not modelled on the input, so a row is its first field and a list of integers. Tokenising already excludes whitespace from the fields. `Binary.ParseInt` is defined only for the text `Binary.IntToString` produces, to state that a written count reads back as itself; it is not `int()` on arbitrary input.
- A table line with no fields is not modelled. A blank line is one example, such as a trailing empty line. On such a line `line.split()` is `[]`, and `line[0]` raises `IndexError` at clusterDBLa.py:145, after the header and the earlier rows have already been written. `Binary.Row` always has a first field, so the model assumes every data row has at least one.
- A field after the first that is not an integer is not modelled either. There `int()` raises `ValueError` at clusterDBLa.py:143.
- The header line of the OTU table is copied as one string. The `StopIteration` that `infile.next()` raises on an empty table is not modelled.
- numpy's choice of element type is not modelled (clusterDBLa.py:143). The model treats the array as integers of unbounded size. The code does no arithmetic on it, so nothing overflows. What element width changes is the type numpy picks for the array. Counts that all fit in 64 bits give a signed 64-bit array. Counts beyond that can give an unsigned, object or floating-point array instead. A floating-point array would be written with a different text per cell, such as `1.0`. Only the all-integer case of `Binary.IntToString` is modelled.
- The `if verbose: print ...` statements and the body of the `MyError` class (clusterDBLa.py:43-47, 53-54, 135-136) are left out. The two `MyError(...)` expressions (clusterDBLa.py:64, 79) build an object that is never raised, so they are no-ops in the model.
- Headers.NormalizeIdempotent: stated only for headers without `size=` and for headers whose `sample=` token survives the first rewrite. Idempotence fails in two other cases:
  - a `sample=` token whose value contains `size` is dropped with the `size` tokens, and if the rest has a `.`, a second rewrite tags the header again;
  - a Rask header that contains `size=` is tagged by the first rewrite, and the second rewrite then drops its `size` tokens.

## Notes on the code

- `convertToBinaryMatrix` sets only positive counts to 1 and leaves negative counts unchanged. The model follows the code. On non-negative counts the result is a 0/1 matrix (`Binary.BinarizeCounts`).
- Neither "error" of `checkInputAndClean` stops anything. A repeated dedup key and a header matching neither convention are both written like any other record (`Headers.CleanRecords`, `Headers.OtherHeaderKept`).
- The `size` filter drops every `;`-token that contains `size` anywhere, not only `size=` tokens. That includes a `sample=` token whose value contains `size`.
- `rstrip()` is Python 2's `str.rstrip()`: it removes spaces and the characters tab through carriage return.
- The round trip needs more than non-empty names free of newlines and trailing whitespace. A sequence must also not start with `>`, or it would be read back as a header (`Fasta.WellFormed`).
- A Rask header that contains `size=` keeps it. The header `a.size=1` is rewritten as `a.size=1;sample=a`, and rewriting that again gives `sample=a`: the size is removed only on a second pass.
