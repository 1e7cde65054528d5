/**
 * `checkInputAndClean`: every record read from the input file is written back
 * with its header rewritten into the usearch convention (`...;sample=<id>`),
 * while the text before the first `;` of each header is remembered in a set of
 * read names.
 */
module Headers {
  import opened Options
  import opened Strings
  import opened Fasta

  /** The name under which a read is remembered: `h.split(";")[0]`. */
  function DedupKey(h: string): string
  {
    Split(h, ';')[0]
  }

  /** The dedup key is the text of the header before its first `;`, or all of it. */
  lemma DedupKeyIsFirstField(h: string)
    ensures DedupKey(h) <= h && ';' !in DedupKey(h)
    ensures |DedupKey(h)| < |h| ==> h[|DedupKey(h)|] == ';'
    ensures ';' !in h ==> DedupKey(h) == h
  {
    SplitFirst(h, ';');
  }

  /** `[t for t in tokens if "size" not in t]`. */
  function WithoutSize(tokens: seq<string>): seq<string>
  {
    if tokens == [] then []
    else (if Contains(tokens[0], "size") then [] else [tokens[0]]) + WithoutSize(tokens[1..])
  }

  /** The filter keeps exactly the tokens that do not mention `size`. */
  lemma {:induction false} WithoutSizeMembers(tokens: seq<string>)
    ensures forall t :: t in WithoutSize(tokens) <==> t in tokens && !Contains(t, "size")
  {
    if tokens != [] {
      WithoutSizeMembers(tokens[1..]);
      assert tokens == [tokens[0]] + tokens[1..];
    }
  }

  /** The filter works token by token, so it keeps the kept tokens in their order. */
  lemma {:induction false} WithoutSizeAppend(a: seq<string>, b: seq<string>)
    ensures WithoutSize(a + b) == WithoutSize(a) + WithoutSize(b)
  {
    if a == [] {
      assert a + b == b;
    } else {
      assert (a + b)[1..] == a[1..] + b;
      WithoutSizeAppend(a[1..], b);
      var head := if Contains(a[0], "size") then [] else [a[0]];
      assert head + (WithoutSize(a[1..]) + WithoutSize(b)) == (head + WithoutSize(a[1..])) + WithoutSize(b);
    }
  }

  /** A kept token is kept as often as it occurs; a dropped one not at all. */
  lemma {:induction false} WithoutSizeCounts(tokens: seq<string>, t: string)
    ensures multiset(WithoutSize(tokens))[t] == if Contains(t, "size") then 0 else multiset(tokens)[t]
  {
    if tokens != [] {
      WithoutSizeCounts(tokens[1..], t);
      assert tokens == [tokens[0]] + tokens[1..];
      assert multiset(tokens) == multiset([tokens[0]]) + multiset(tokens[1..]);
    }
  }

  /** The header rewrite of `checkInputAndClean`. */
  function NormalizeHeader(h: string): string
  {
    if Contains(h, "sample=") then
      if Contains(h, "size=") then Join(WithoutSize(Split(h, ';')), ';') else h
    else if Contains(h, ".") then
      h + ";sample=" + Split(h, '.')[0]
    else
      h
  }

  /** A header already in usearch format and without a size annotation is kept as it is. */
  lemma SampleHeaderKept(h: string)
    requires Contains(h, "sample=") && !Contains(h, "size=")
    ensures NormalizeHeader(h) == h
  {
  }

  /** A header matching neither convention is kept as it is. */
  lemma OtherHeaderKept(h: string)
    requires !Contains(h, "sample=") && !Contains(h, ".")
    ensures NormalizeHeader(h) == h
  {
  }

  /** The tokens of a header do not contain `;`, and neither do the kept ones. */
  lemma KeptTokensFree(h: string)
    ensures forall k :: 0 <= k < |WithoutSize(Split(h, ';'))| ==> ';' !in WithoutSize(Split(h, ';'))[k]
  {
    var tokens := Split(h, ';');
    SplitPiecesFree(h, ';');
    WithoutSizeMembers(tokens);
    forall k | 0 <= k < |WithoutSize(tokens)|
      ensures ';' !in WithoutSize(tokens)[k]
    {
      assert WithoutSize(tokens)[k] in WithoutSize(tokens);
    }
  }

  /** A usearch header with a size annotation becomes the `;`-join of its tokens that do
      not mention `size`, in their order; so no token of the result mentions `size`. */
  lemma SizeTokensDropped(h: string)
    requires Contains(h, "sample=") && Contains(h, "size=")
    ensures var kept := WithoutSize(Split(h, ';'));
      && NormalizeHeader(h) == Join(kept, ';')
      && (kept != [] ==> Split(NormalizeHeader(h), ';') == kept)
      && (kept == [] ==> NormalizeHeader(h) == "")
      && (forall k :: 0 <= k < |Split(NormalizeHeader(h), ';')| ==> !Contains(Split(NormalizeHeader(h), ';')[k], "size"))
      && !Contains(NormalizeHeader(h), "size")
  {
    var kept := WithoutSize(Split(h, ';'));
    var r := NormalizeHeader(h);
    WithoutSizeMembers(Split(h, ';'));
    if kept != [] {
      KeptTokensFree(h);
      SplitJoin(kept, ';');
      forall k | 0 <= k < |kept|
        ensures !Contains(kept[k], "size")
      {
        assert kept[k] in kept;
      }
      if Contains(r, "size") {
        ContainsInJoin(kept, ';', "size");
        assert false;
      }
    } else {
      assert r == "";
      assert Split(r, ';') == [""];
      assert !Contains("", "size");
    }
  }

  /** The text `"sample="` cannot hold the start of an occurrence of `"size="`. */
  lemma {:induction false} SizeAfterSamplePrefix(p: string)
    ensures Contains("sample=" + p, "size=") ==> Contains(p, "size=")
  {
    var s := "sample=" + p;
    var w := "size=";
    if Contains(s, w) {
      ContainsIffOccurs(s, w);
      var i :| OccursAt(s, w, i);
      var found := s[i..i + |w|];
      assert found == w;
      assert s[i] == found[0] == 's' && s[i + 1] == found[1] == 'i';
      assert s[0] == 's' && s[1] == 'a' && s[2] == 'm' && s[3] == 'p' && s[4] == 'l' && s[5] == 'e' && s[6] == '=';
      assert i >= 7;
      assert s[7..] == p;
      assert p[i - 7..i - 7 + |w|] == found;
      assert OccursAt(p, w, i - 7);
      OccursContains(p, w, i - 7);
    }
  }

  /** Appending `";sample=" + p` for a prefix `p` of `h` adds no `"size="` annotation. */
  lemma SizeAfterAppend(h: string, p: string)
    requires p <= h
    ensures Contains(h + ";sample=" + p, "size=") ==> Contains(h, "size=")
  {
    var w := "size=";
    var s := h + ";sample=" + p;
    if Contains(s, w) {
      assert s == h + [';'] + ("sample=" + p);
      ContainsAcross(h, ';', "sample=" + p, w);
      SizeAfterSamplePrefix(p);
      if Contains(p, w) {
        ContainsInPrefix(p, h, w);
      }
    }
  }

  /** A Rask-style header (a `.` and no `sample=`) gets `";sample=" + p` appended, where
      `p` is the text before its first `.`. */
  lemma RaskHeaderTagged(h: string)
    requires !Contains(h, "sample=") && Contains(h, ".")
    ensures var p := Split(h, '.')[0];
      && NormalizeHeader(h) == h + ";sample=" + p
      && p <= h && '.' !in p && |p| < |h| && h[|p|] == '.'
  {
    SplitFirst(h, '.');
    ContainsChar(h, '.');
    SplitFirstShorter(h, '.');
  }

  /** Appending a sample tag keeps the header as a prefix and puts `sample=` in it. */
  lemma TagExtends(h: string, p: string)
    ensures h <= h + ";sample=" + p
    ensures Contains(h + ";sample=" + p, "sample=")
  {
    var r := h + ";sample=" + p;
    assert r[..|h|] == h;
    ContainsMiddle(h + ";", "sample=", p);
    assert r == (h + ";") + "sample=" + p;
  }

  /** The tagged Rask header starts with the original header and is in usearch format. */
  lemma RaskHeaderExtended(h: string)
    requires !Contains(h, "sample=") && Contains(h, ".")
    ensures h <= NormalizeHeader(h) && Contains(NormalizeHeader(h), "sample=")
  {
    TagExtends(h, Split(h, '.')[0]);
  }

  /** Rewriting a header a second time changes nothing when it carries no `size=`
      annotation, or when it carries a `sample=` token that survives the first rewrite. */
  lemma NormalizeIdempotent(h: string)
    requires !Contains(h, "size=") || (Contains(h, "sample=") && Contains(NormalizeHeader(h), "sample="))
    ensures NormalizeHeader(NormalizeHeader(h)) == NormalizeHeader(h)
  {
    if Contains(h, "size=") {
      SizeTokensDropped(h);
      assert "size=" == "size" + "=";
      ContainsStartOfWord(NormalizeHeader(h), "size", "=");
    } else if !Contains(h, "sample=") && Contains(h, ".") {
      RaskHeaderTagged(h);
      RaskHeaderExtended(h);
      SizeAfterAppend(h, Split(h, '.')[0]);
    }
  }

  /** The record `checkInputAndClean` writes for a record it read. */
  function Cleaned(r: Record): Record
  {
    Record(NormalizeHeader(r.name), r.sequence)
  }

  /** The records `checkInputAndClean` writes for the records it read, in order. */
  function CleanedAll(records: seq<Record>): (r: seq<Record>)
    ensures |r| == |records|
    ensures forall k :: 0 <= k < |r| ==> r[k] == Cleaned(records[k])
  {
    if records == [] then [] else [Cleaned(records[0])] + CleanedAll(records[1..])
  }

  /** What is written for the records `records`: one entry per record, in order. */
  function Entries(records: seq<Record>): (r: seq<string>)
    ensures |r| == |records|
    ensures forall k :: 0 <= k < |r| ==> r[k] == Entry(records[k])
  {
    if records == [] then [] else [Entry(records[0])] + Entries(records[1..])
  }

  /** Writing the entries one after the other produces the text of the records. */
  lemma {:induction false} EntriesText(records: seq<Record>)
    ensures Concat(Entries(records)) == Text(records)
  {
    if records != [] {
      EntriesText(records[1..]);
      assert Entries(records)[1..] == Entries(records[1..]);
    }
  }

  /** The set of dedup keys of the first `n` records: `read_set` after `n` iterations. */
  function KeysOf(records: seq<Record>, n: nat): set<string>
    requires n <= |records|
  {
    if n == 0 then {} else KeysOf(records, n - 1) + {DedupKey(records[n - 1].name)}
  }

  /** A name is in the read set exactly when one of the records read so far has it as
      its dedup key; so a record is reported as a possible duplicate exactly when an
      earlier record has the same text before its first `;`. */
  lemma {:induction false} KeysOfMembers(records: seq<Record>, n: nat, key: string)
    requires n <= |records|
    ensures key in KeysOf(records, n) <==> exists k :: 0 <= k < n && DedupKey(records[k].name) == key
  {
    if n > 0 {
      KeysOfMembers(records, n - 1, key);
      if DedupKey(records[n - 1].name) == key {
        assert 0 <= n - 1 < n && DedupKey(records[n - 1].name) == key;
      }
    }
  }

  /** The loop of `checkInputAndClean` over the records `readFasta` yields: the strings
      handed to `outfile.write`, one per record, in order, each with its header rewritten
      and its sequence unchanged. A repeated dedup key only builds an error object that
      is never raised, so no record is skipped. */
  method CleanRecords(records: seq<Record>) returns (written: seq<string>)
    ensures written == Entries(CleanedAll(records))
  {
    var readSet: set<string> := {};
    written := [];
    var i := 0;
    while i < |records|
      invariant i <= |records|
      invariant readSet == KeysOf(records, i)
      invariant written == Entries(CleanedAll(records[..i]))
    {
      var entry;
      readSet, entry := CleanRecord(readSet, records[i]);
      written := written + [entry];
      EntriesSnoc(records, i);
      i := i + 1;
    }
    assert records[..i] == records;
  }

  /** Cleaning and writing one more record appends its entry. */
  lemma EntriesSnoc(records: seq<Record>, i: nat)
    requires i < |records|
    ensures Entries(CleanedAll(records[..i + 1])) == Entries(CleanedAll(records[..i])) + [Entry(Cleaned(records[i]))]
  {
    var longer := Entries(CleanedAll(records[..i + 1]));
    var shorter := Entries(CleanedAll(records[..i]));
    forall k | 0 <= k < i + 1
      ensures longer[k] == (shorter + [Entry(Cleaned(records[i]))])[k]
    {
      assert records[..i + 1][k] == records[k];
      if k < i {
        assert records[..i][k] == records[k];
      }
    }
  }

  /** One iteration of the loop of `checkInputAndClean`: remember the dedup key of the
      record (a repeated key only builds an error object that is never raised), rewrite
      the header, and build the string handed to `outfile.write`. */
  method CleanRecord(readSet: set<string>, record: Record) returns (readSet': set<string>, entry: string)
    ensures readSet' == readSet + {DedupKey(record.name)}
    ensures entry == Entry(Cleaned(record))
  {
    var h, s := record.name, record.sequence;
    var key := DedupKey(h);
    if key in readSet {
      // `MyError("Reads may be duplicated!")` is built and discarded.
    }
    readSet' := readSet + {key};
    h := NormalizeHeader(h);
    entry := ">" + h + "\n" + s + "\n";
  }

  /** `checkInputAndClean` on the lines of the input file: read the records, then
      write each one cleaned. */
  method CheckInputAndClean(lines: seq<string>) returns (written: seq<string>)
    ensures written == Entries(CleanedAll(Records(lines)))
  {
    var records := ReadFasta(lines);
    written := CleanRecords(records);
  }

  /** What `checkInputAndClean` writes reads back as the cleaned records, whenever
      those are well formed. */
  lemma CleanedReadsBack(records: seq<Record>)
    requires forall k :: 0 <= k < |records| ==> WellFormed(Cleaned(records[k]))
    ensures Records(Lines(Concat(Entries(CleanedAll(records))))) == CleanedAll(records)
  {
    EntriesText(CleanedAll(records));
    RoundTrip(CleanedAll(records));
  }
}
