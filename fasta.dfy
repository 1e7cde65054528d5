/**
 * The FASTA reader `readFasta` and the record format the cleaner writes.
 * A file is the list of its lines in the order Python's file iteration yields
 * them (each line still carrying its terminating newline, if it has one).
 */
module Fasta {
  import opened Options
  import opened Strings

  /** One `(name, seq)` pair yielded by `readFasta`. */
  datatype Record = Record(name: string, sequence: string)

  /** Python's `s.startswith(">")`. */
  predicate StartsWithGt(s: string)
  {
    s != [] && s[0] == '>'
  }

  /** A line opens a record when, right-stripped, it starts with `>`. */
  predicate IsHeaderLine(line: string)
  {
    StartsWithGt(RStrip(line))
  }

  /** The name a header line gives its record: the right-stripped line without the `>`. */
  function HeaderName(line: string): string
    requires IsHeaderLine(line)
  {
    RStrip(line)[1..]
  }

  /** The index of the first header line at or after `from`, or `|lines|` if there is none. */
  function NextHeader(lines: seq<string>, from: nat): (n: nat)
    requires from <= |lines|
    ensures from <= n <= |lines|
    ensures forall k :: from <= k < n ==> !IsHeaderLine(lines[k])
    ensures n < |lines| ==> IsHeaderLine(lines[n])
    decreases |lines| - from
  {
    if from == |lines| || IsHeaderLine(lines[from]) then from else NextHeader(lines, from + 1)
  }

  /** `NextHeader` is determined by where the next header line is. */
  lemma NextHeaderIs(lines: seq<string>, from: nat, n: nat)
    requires from <= n <= |lines|
    requires forall k :: from <= k < n ==> !IsHeaderLine(lines[k])
    requires n < |lines| ==> IsHeaderLine(lines[n])
    ensures NextHeader(lines, from) == n
  {
  }

  /** The right-stripped lines from index `lo` up to `hi` (exclusive), concatenated:
      the sequence of a record whose non-header lines are those. */
  function BodyText(lines: seq<string>, lo: nat, hi: nat): string
    requires lo <= hi <= |lines|
    decreases hi - lo
  {
    if lo == hi then "" else BodyText(lines, lo, hi - 1) + RStrip(lines[hi - 1])
  }

  /** The records from the header line at `start` on: that header's record,
      then the records from the next header line on. */
  function RecordsFrom(lines: seq<string>, start: nat): seq<Record>
    requires start < |lines| && IsHeaderLine(lines[start])
    decreases |lines| - start
  {
    var next := NextHeader(lines, start + 1);
    Flushed(Some(HeaderName(lines[start])), BodyText(lines, start + 1, next))
      + (if next < |lines| then RecordsFrom(lines, next) else [])
  }

  /** The records of a file: lines before the first header line belong to no
      record; from the first header line on, records are read block by block. */
  function Records(lines: seq<string>): seq<Record>
  {
    var first := NextHeader(lines, 0);
    if first == |lines| then [] else RecordsFrom(lines, first)
  }

  /** The names of the header lines from index `i` on whose name is non-empty, in order. */
  function NamedHeadersFrom(lines: seq<string>, i: nat): seq<string>
    requires i <= |lines|
    decreases |lines| - i
  {
    if i == |lines| then []
    else
      (if IsHeaderLine(lines[i]) && HeaderName(lines[i]) != "" then [HeaderName(lines[i])] else [])
        + NamedHeadersFrom(lines, i + 1)
  }

  /** The names of all header lines with a non-empty name, in order. */
  function NamedHeaders(lines: seq<string>): seq<string>
  {
    NamedHeadersFrom(lines, 0)
  }

  /** The names of a list of records, in order. */
  function Names(records: seq<Record>): (r: seq<string>)
    ensures |r| == |records|
  {
    if records == [] then [] else [records[0].name] + Names(records[1..])
  }

  /** `Names` distributes over concatenation. */
  lemma {:induction false} NamesAppend(a: seq<Record>, b: seq<Record>)
    ensures Names(a + b) == Names(a) + Names(b)
  {
    if a == [] {
      assert a + b == b;
    } else {
      assert (a + b)[1..] == a[1..] + b;
      NamesAppend(a[1..], b);
      assert [a[0].name] + (Names(a[1..]) + Names(b)) == ([a[0].name] + Names(a[1..])) + Names(b);
    }
  }

  /** Lines that are not header lines contribute no names. */
  lemma {:induction false} NamedHeadersSkip(lines: seq<string>, i: nat, j: nat)
    requires i <= j <= |lines|
    requires forall k :: i <= k < j ==> !IsHeaderLine(lines[k])
    ensures NamedHeadersFrom(lines, i) == NamedHeadersFrom(lines, j)
    decreases j - i
  {
    if i < j {
      NamedHeadersSkip(lines, i + 1, j);
      assert !IsHeaderLine(lines[i]);
      var later := NamedHeadersFrom(lines, i + 1);
      assert NamedHeadersFrom(lines, i) == [] + later;
      assert [] + later == later;
    }
  }

  /** From a header line on, the records are named by the non-empty header names. */
  lemma {:induction false} RecordNamesFrom(lines: seq<string>, start: nat)
    requires start < |lines| && IsHeaderLine(lines[start])
    ensures Names(RecordsFrom(lines, start)) == NamedHeadersFrom(lines, start)
    decreases |lines| - start
  {
    var next := NextHeader(lines, start + 1);
    NamedHeadersSkip(lines, start + 1, next);
    var emitted := Flushed(Some(HeaderName(lines[start])), BodyText(lines, start + 1, next));
    var later := if next < |lines| then RecordsFrom(lines, next) else [];
    NamesAppend(emitted, later);
    if next < |lines| {
      RecordNamesFrom(lines, next);
    }
    assert Names(emitted) == (if HeaderName(lines[start]) != "" then [HeaderName(lines[start])] else []);
  }

  /** One record per header line with a non-empty name, in the order of those lines:
      lines before the first header and headers with an empty name yield nothing. */
  lemma RecordNames(lines: seq<string>)
    ensures Names(Records(lines)) == NamedHeaders(lines)
    ensures |Records(lines)| == |NamedHeaders(lines)|
  {
    var first := NextHeader(lines, 0);
    NamedHeadersSkip(lines, 0, first);
    if first < |lines| {
      RecordNamesFrom(lines, first);
    }
  }

  /** Python's truth test `if name:` on a name that is `None` or a string. */
  predicate IsSet(name: Option<string>)
  {
    name.Some? && name.value != ""
  }

  /** What the reader still yields from line `i` on, when the record opened last
      has name `name` and has collected the text `text` so far. */
  ghost function Pending(lines: seq<string>, i: nat, name: Option<string>, text: string): seq<Record>
    requires i <= |lines|
    decreases |lines| - i
  {
    if i == |lines| then Flushed(name, text)
    else if IsHeaderLine(lines[i]) then Flushed(name, text) + Pending(lines, i + 1, Some(HeaderName(lines[i])), "")
    else Pending(lines, i + 1, name, text + RStrip(lines[i]))
  }

  /** The record a header line or the end of the file flushes: the open one, if its
      name is set. A header with an empty name contributes no record. */
  function Flushed(name: Option<string>, text: string): seq<Record>
  {
    if IsSet(name) then [Record(name.value, text)] else []
  }

  /** A header line flushes the open record and opens a new one. */
  lemma PendingAtHeader(lines: seq<string>, i: nat, name: Option<string>, text: string)
    requires i < |lines| && StartsWithGt(RStrip(lines[i]))
    ensures Pending(lines, i, name, text)
         == Flushed(name, text) + Pending(lines, i + 1, Some(RStrip(lines[i])[1..]), "")
  {
  }

  /** The same step, seen from the records already yielded. */
  lemma YieldAtHeader(done: seq<Record>, lines: seq<string>, i: nat, name: Option<string>, text: string)
    requires i < |lines| && StartsWithGt(RStrip(lines[i]))
    ensures done + Pending(lines, i, name, text)
         == (done + Flushed(name, text)) + Pending(lines, i + 1, Some(RStrip(lines[i])[1..]), "")
  {
    PendingAtHeader(lines, i, name, text);
    assert done + (Flushed(name, text) + Pending(lines, i + 1, Some(RStrip(lines[i])[1..]), ""))
        == (done + Flushed(name, text)) + Pending(lines, i + 1, Some(RStrip(lines[i])[1..]), "");
  }

  /** Any other line adds its right-stripped text to the open record. */
  lemma PendingAtBodyLine(lines: seq<string>, i: nat, name: Option<string>, text: string)
    requires i < |lines| && !StartsWithGt(RStrip(lines[i]))
    ensures Pending(lines, i, name, text) == Pending(lines, i + 1, name, text + RStrip(lines[i]))
  {
  }

  /** A non-header line, appended to the collected lines, is appended to the open record's text. */
  lemma CollectAtBodyLine(lines: seq<string>, i: nat, name: Option<string>, parts: seq<string>)
    requires i < |lines| && !StartsWithGt(RStrip(lines[i]))
    ensures Pending(lines, i, name, Concat(parts)) == Pending(lines, i + 1, name, Concat(parts + [RStrip(lines[i])]))
  {
    PendingAtBodyLine(lines, i, name, Concat(parts));
    ConcatSnoc(parts, RStrip(lines[i]));
  }

  /** Within a record, what is still pending is that record and all the later ones. */
  lemma {:induction false} PendingInRecord(lines: seq<string>, start: nat, i: nat)
    requires start < |lines| && IsHeaderLine(lines[start])
    requires start < i <= NextHeader(lines, start + 1)
    ensures Pending(lines, i, Some(HeaderName(lines[start])), BodyText(lines, start + 1, i))
         == RecordsFrom(lines, start)
    decreases |lines| - start, |lines| - i + 1
  {
    var name := HeaderName(lines[start]);
    var text := BodyText(lines, start + 1, i);
    if i < NextHeader(lines, start + 1) {
      PendingAtBodyLine(lines, i, Some(name), text);
      assert BodyText(lines, start + 1, i + 1) == text + RStrip(lines[i]);
      PendingInRecord(lines, start, i + 1);
      assert Pending(lines, i + 1, Some(name), text + RStrip(lines[i])) == RecordsFrom(lines, start);
    } else {
      assert i == NextHeader(lines, start + 1);
      PendingAtRecordEnd(lines, start);
    }
  }

  /** Just after a header line, what is pending is that header's record and all the later ones. */
  lemma {:induction false} PendingAfterHeader(lines: seq<string>, start: nat)
    requires start < |lines| && IsHeaderLine(lines[start])
    ensures Pending(lines, start + 1, Some(HeaderName(lines[start])), "") == RecordsFrom(lines, start)
    decreases |lines| - start, |lines| - start + 1
  {
    PendingInRecord(lines, start, start + 1);
    assert BodyText(lines, start + 1, start + 1) == "";
  }

  /** At the line that ends a record, what is still pending is that record and all the later ones. */
  lemma {:induction false} PendingAtRecordEnd(lines: seq<string>, start: nat)
    requires start < |lines| && IsHeaderLine(lines[start])
    ensures var next := NextHeader(lines, start + 1);
      Pending(lines, next, Some(HeaderName(lines[start])), BodyText(lines, start + 1, next))
        == RecordsFrom(lines, start)
    decreases |lines| - start, 0
  {
    var name := HeaderName(lines[start]);
    var next := NextHeader(lines, start + 1);
    var text := BodyText(lines, start + 1, next);
    if next < |lines| {
      calc {
        Pending(lines, next, Some(name), text);
        { PendingAtHeader(lines, next, Some(name), text); }
        Flushed(Some(name), text) + Pending(lines, next + 1, Some(HeaderName(lines[next])), "");
        { PendingAfterHeader(lines, next); }
        Flushed(Some(name), text) + RecordsFrom(lines, next);
        RecordsFrom(lines, start);
      }
    } else {
      assert RecordsFrom(lines, start) == Flushed(Some(name), text) + [];
      assert Flushed(Some(name), text) + [] == Flushed(Some(name), text);
    }
  }

  /** Before the first header line, what is pending is all the records of the file. */
  lemma {:induction false} PendingBeforeHeader(lines: seq<string>, i: nat, text: string)
    requires i <= NextHeader(lines, 0)
    ensures Pending(lines, i, None, text) == Records(lines)
    decreases |lines| - i
  {
    var first := NextHeader(lines, 0);
    if i < first {
      PendingAtBodyLine(lines, i, None, text);
      PendingBeforeHeader(lines, i + 1, text + RStrip(lines[i]));
    } else if i < |lines| {
      assert first == i && IsHeaderLine(lines[i]);
      PendingAtHeader(lines, i, None, text);
      PendingAfterHeader(lines, i);
      assert Pending(lines, i, None, text) == [] + RecordsFrom(lines, i);
    }
  }

  /** Lines put in front of a file do not change what the reader yields from the file's own lines. */
  lemma {:induction false} PendingShift(pre: seq<string>, lines: seq<string>, i: nat, name: Option<string>, text: string)
    requires i <= |lines|
    ensures Pending(pre + lines, |pre| + i, name, text) == Pending(lines, i, name, text)
    decreases |lines| - i
  {
    if i < |lines| {
      assert (pre + lines)[|pre| + i] == lines[i];
      if IsHeaderLine(lines[i]) {
        PendingShift(pre, lines, i + 1, Some(HeaderName(lines[i])), "");
      } else {
        PendingShift(pre, lines, i + 1, name, text + RStrip(lines[i]));
      }
    }
  }

  /** Before the first header line, the reader collects text for no record. */
  lemma {:induction false} PendingInPreamble(pre: seq<string>, lines: seq<string>, i: nat, text: string)
    requires i <= |pre|
    requires forall k :: 0 <= k < |pre| ==> !IsHeaderLine(pre[k])
    ensures exists t :: Pending(pre + lines, i, None, text) == Pending(lines, 0, None, t)
    decreases |pre| - i
  {
    if i < |pre| {
      assert (pre + lines)[i] == pre[i];
      PendingInPreamble(pre, lines, i + 1, text + RStrip(pre[i]));
    } else {
      PendingShift(pre, lines, 0, None, text);
    }
  }

  /** Lines before the first header line are never part of any record. */
  lemma PreambleIgnored(pre: seq<string>, lines: seq<string>)
    requires forall k :: 0 <= k < |pre| ==> !IsHeaderLine(pre[k])
    ensures Records(pre + lines) == Records(lines)
  {
    var all := pre + lines;
    forall j | 0 <= j < |pre|
      ensures !IsHeaderLine(all[j])
    {
      assert all[j] == pre[j];
    }
    assert NextHeader(all, 0) >= |pre|;
    PendingBeforeHeader(all, 0, "");
    PendingInPreamble(pre, lines, 0, "");
    var t :| Pending(all, 0, None, "") == Pending(lines, 0, None, t);
    PendingBeforeHeader(lines, 0, t);
  }

  /** `readFasta`: one pass over the lines, keeping the current name and the
      list of sequence lines read since the last header. */
  method ReadFasta(lines: seq<string>) returns (records: seq<Record>)
    ensures records == Records(lines)
  {
    var name: Option<string> := None;
    var parts: seq<string> := [];
    records := [];
    PendingBeforeHeader(lines, 0, "");
    assert records + Pending(lines, 0, name, Concat(parts)) == Records(lines);
    var i := 0;
    while i < |lines|
      invariant i <= |lines|
      invariant records + Pending(lines, i, name, Concat(parts)) == Records(lines)
    {
      var line := RStrip(lines[i]);
      if StartsWithGt(line) {
        line := line[1..];
        YieldAtHeader(records, lines, i, name, Concat(parts));
        ghost var flushed := records + Flushed(name, Concat(parts));
        if IsSet(name) {
          records := records + [Record(name.value, Concat(parts))];
        }
        assert records == flushed;
        name, parts := Some(line), [];
        assert Concat(parts) == "";
      } else {
        CollectAtBodyLine(lines, i, name, parts);
        parts := parts + [line];
      }
      i := i + 1;
    }
    if IsSet(name) {
      records := records + [Record(name.value, Concat(parts))];
    }
  }

  /** The length of the first line Python's file iteration yields from `text`:
      up to and including the first newline, or all of `text` if it has none. */
  function LineLength(text: string): (n: nat)
    requires text != []
    ensures 1 <= n <= |text|
    decreases |text|
  {
    if text[0] == '\n' || |text| == 1 then 1 else 1 + LineLength(text[1..])
  }

  /** The lines of a file's contents as `for line in fp` yields them: each keeps its
      newline, and a last line without one is yielded as it is. */
  function Lines(text: string): seq<string>
    decreases |text|
  {
    if text == [] then [] else
      var n := LineLength(text);
      [text[..n]] + Lines(text[n..])
  }

  /** The first line of `p + "\n" + t` ends at that newline when `p` has none. */
  lemma {:induction false} LineLengthOfLine(p: string, t: string)
    requires '\n' !in p
    ensures LineLength(p + "\n" + t) == |p| + 1
    decreases |p|
  {
    var s := p + "\n" + t;
    if p != [] {
      assert s[0] == p[0] && s[1..] == p[1..] + "\n" + t;
      LineLengthOfLine(p[1..], t);
    }
  }

  /** A newline-free `p` followed by a newline is the first line of the file. */
  lemma LinesOfLine(p: string, t: string)
    requires '\n' !in p
    ensures Lines(p + "\n" + t) == [p + "\n"] + Lines(t)
  {
    var s := p + "\n" + t;
    LineLengthOfLine(p, t);
    assert s[..|p| + 1] == p + "\n";
    assert s[|p| + 1..] == t;
  }

  /** The first line ends at the first newline: no newline comes before its last
      character, and a line that stops before the end of the text ends in one. */
  lemma {:induction false} LineLengthShape(text: string)
    requires text != []
    ensures forall k :: 0 <= k < LineLength(text) - 1 ==> text[k] != '\n'
    ensures LineLength(text) < |text| ==> text[LineLength(text) - 1] == '\n'
    decreases |text|
  {
    var n := LineLength(text);
    if !(text[0] == '\n' || |text| == 1) {
      LineLengthShape(text[1..]);
      forall k | 0 <= k < n - 1
        ensures text[k] != '\n'
      {
        if k > 0 {
          assert text[k] == text[1..][k - 1];
        }
      }
      if n < |text| {
        assert text[n - 1] == text[1..][n - 2];
      }
    }
  }

  /** A line as file iteration yields it: not empty, a newline at most as its last
      character, and a newline there unless it is the last line of the file. */
  predicate IsLine(line: string, last: bool)
  {
    && line != []
    && (forall j :: 0 <= j < |line| - 1 ==> line[j] != '\n')
    && (!last ==> line[|line| - 1] == '\n')
  }

  /** Every line file iteration yields has the shape of a line. */
  lemma {:induction false} LinesShape(text: string)
    ensures forall k :: 0 <= k < |Lines(text)| ==> IsLine(Lines(text)[k], k == |Lines(text)| - 1)
    decreases |text|
  {
    if text != [] {
      var n := LineLength(text);
      var rest := text[n..];
      LinesShape(rest);
      LineLengthShape(text);
      assert Lines(text) == [text[..n]] + Lines(rest);
      assert rest != [] ==> Lines(rest) != [];
      forall k | 0 <= k < |Lines(text)|
        ensures IsLine(Lines(text)[k], k == |Lines(text)| - 1)
      {
        if k == 0 {
          var line := text[..n];
          forall j | 0 <= j < |line| - 1
            ensures line[j] != '\n'
          {
            assert line[j] == text[j];
          }
        } else {
          assert Lines(text)[k] == Lines(rest)[k - 1];
        }
      }
    }
  }

  /** File iteration loses nothing: the lines put back together are the text. */
  lemma {:induction false} LinesConcat(text: string)
    ensures Concat(Lines(text)) == text
    decreases |text|
  {
    if text != [] {
      var n := LineLength(text);
      LinesConcat(text[n..]);
      var lines := [text[..n]] + Lines(text[n..]);
      assert Lines(text) == lines;
      assert lines[1..] == Lines(text[n..]);
      assert Concat(lines) == text[..n] + Concat(Lines(text[n..]));
      assert text[..n] + text[n..] == text;
    }
  }

  /** What the cleaner writes for one record: `">" + h + "\n" + s + "\n"`. */
  function Entry(r: Record): string
  {
    ">" + r.name + "\n" + r.sequence + "\n"
  }

  /** What the cleaner writes for a list of records: their entries, in order. */
  function Text(records: seq<Record>): string
  {
    if records == [] then "" else Entry(records[0]) + Text(records[1..])
  }

  /** `s` ends in a character that `rstrip()` removes. */
  predicate EndsInSpace(s: string)
  {
    s != [] && IsSpace(s[|s| - 1])
  }

  /** A record that reads back as itself once written: a non-empty name, no newline
      in name or sequence, neither ending in whitespace, and a sequence that does
      not itself look like a header. */
  predicate WellFormed(r: Record)
  {
    && r.name != "" && '\n' !in r.name && !EndsInSpace(r.name)
    && '\n' !in r.sequence && !EndsInSpace(r.sequence) && !StartsWithGt(r.sequence)
  }

  /** Right-stripping a line `s + "\n"` gives `s` when `s` does not end in whitespace. */
  lemma RStripLine(s: string)
    requires !EndsInSpace(s)
    ensures RStrip(s + "\n") == s
  {
    RStripDropsSpace(s, '\n');
    if s != [] {
      RStripKeeps(s);
    }
  }

  /** A written entry is read as a header line followed by one sequence line. */
  lemma LinesOfEntry(r: Record, t: string)
    requires WellFormed(r)
    ensures Lines(Entry(r) + t) == [">" + r.name + "\n", r.sequence + "\n"] + Lines(t)
    ensures IsHeaderLine(">" + r.name + "\n") && HeaderName(">" + r.name + "\n") == r.name
    ensures !IsHeaderLine(r.sequence + "\n") && RStrip(r.sequence + "\n") == r.sequence
  {
    var h := ">" + r.name;
    assert '\n' !in h;
    assert Entry(r) + t == h + "\n" + (r.sequence + "\n" + t);
    LinesOfLine(h, r.sequence + "\n" + t);
    LinesOfLine(r.sequence, t);
    RStripLine(h);
    RStripLine(r.sequence);
  }

  /** Reading a written entry flushes the open record and leaves the entry's record open. */
  lemma PendingOfEntry(r: Record, later: seq<string>, name: Option<string>, text: string)
    requires WellFormed(r)
    ensures Pending([">" + r.name + "\n", r.sequence + "\n"] + later, 0, name, text)
         == Flushed(name, text) + Pending(later, 0, Some(r.name), r.sequence)
  {
    var header := ">" + r.name + "\n";
    var body := r.sequence + "\n";
    var lines := [header, body] + later;
    LinesOfEntry(r, []);
    assert lines[0] == header && lines[1] == body;
    PendingAtHeader(lines, 0, name, text);
    PendingAtBodyLine(lines, 1, Some(r.name), "");
    assert "" + RStrip(lines[1]) == r.sequence;
    PendingShift([header, body], later, 0, Some(r.name), r.sequence);
  }

  /** Reading back what the cleaner wrote, with an open record `name` collecting `text`
      in front of it, yields that open record and then exactly the written records. */
  lemma {:induction false} PendingOfText(records: seq<Record>, name: Option<string>, text: string)
    requires forall k :: 0 <= k < |records| ==> WellFormed(records[k])
    ensures Pending(Lines(Text(records)), 0, name, text) == Flushed(name, text) + records
  {
    if records == [] {
      assert Lines(Text(records)) == [];
      assert Flushed(name, text) + records == Flushed(name, text);
    } else {
      var r := records[0];
      var rest := records[1..];
      var later := Lines(Text(rest));
      calc {
        Pending(Lines(Text(records)), 0, name, text);
        { assert Text(records) == Entry(r) + Text(rest);
          LinesOfEntry(r, Text(rest)); }
        Pending([">" + r.name + "\n", r.sequence + "\n"] + later, 0, name, text);
        { PendingOfEntry(r, later, name, text); }
        Flushed(name, text) + Pending(later, 0, Some(r.name), r.sequence);
        { PendingOfText(rest, Some(r.name), r.sequence); }
        Flushed(name, text) + (Flushed(Some(r.name), r.sequence) + rest);
        { assert Flushed(Some(r.name), r.sequence) + rest == records; }
        Flushed(name, text) + records;
      }
    }
  }

  /** Round trip: reading back what the cleaner writes gives the same records in the
      same order, for well-formed records. */
  lemma RoundTrip(records: seq<Record>)
    requires forall k :: 0 <= k < |records| ==> WellFormed(records[k])
    ensures Records(Lines(Text(records))) == records
  {
    var lines := Lines(Text(records));
    PendingBeforeHeader(lines, 0, "");
    PendingOfText(records, None, "");
    assert Flushed(None, "") + records == records;
  }
}
