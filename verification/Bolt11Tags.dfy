/**
  The tagged fields of a BOLT11 data part (src/common/bolt11-tags.ts), against the printer that
  invoices are built with (sections "Data Part" and "Tagged Fields" of BOLT #11).
 */
module Bolt11Tags {
  /** A five-bit word. */
  type Word = w: int | 0 <= w < 32

  const TIMESTAMP_WORDS := 7
  const SIGNATURE_WORDS := 104

  /** Tags that may appear once: p, x, d, s, n, h. */
  const SINGLE_TAGS: set<Word> := {1, 6, 13, 16, 19, 23}

  datatype Field = Field(tag: Word, data: seq<Word>)

  datatype Error = Truncated | Overruns | Repeated

  type Tags = map<Word, seq<Word>>

  datatype Reading = Read(tags: Tags) | Failed(error: Error)

  // ----- printing

  /** The length of a field fits in its two length words. */
  predicate Printable(fields: seq<Field>) {
    forall i :: 0 <= i < |fields| ==> |fields[i].data| < 1024
  }

  function PrintField(f: Field): seq<Word>
    requires |f.data| < 1024
  {
    [f.tag, |f.data| / 32, |f.data| % 32] + f.data
  }

  function Print(fields: seq<Field>): seq<Word>
    requires Printable(fields)
  {
    if fields == [] then [] else PrintField(fields[0]) + Print(fields[1..])
  }

  /** The words between the timestamp and the signature; none when the data part is too short. */
  function Body(words: seq<Word>): seq<Word> {
    if |words| < TIMESTAMP_WORDS + SIGNATURE_WORDS then [] else words[TIMESTAMP_WORDS..|words| - SIGNATURE_WORDS]
  }

  // ----- what the fields mean

  /** Each tag with its last field. */
  function LastOf(fields: seq<Field>): Tags {
    if fields == [] then map[]
    else LastOf(fields[..|fields| - 1])[fields[|fields| - 1].tag := fields[|fields| - 1].data]
  }

  predicate SingleUse(fields: seq<Field>) {
    forall i, j :: 0 <= i < j < |fields| && fields[i].tag == fields[j].tag ==> fields[i].tag !in SINGLE_TAGS
  }

  lemma {:induction false} LastOfKeys(fields: seq<Field>, tag: Word)
    ensures tag in LastOf(fields) <==> exists i :: 0 <= i < |fields| && fields[i].tag == tag
  {
    if fields != [] {
      var init := fields[..|fields| - 1];
      LastOfKeys(init, tag);
      assert forall i :: 0 <= i < |init| ==> init[i] == fields[i];
      if exists i :: 0 <= i < |fields| && fields[i].tag == tag {
        var i :| 0 <= i < |fields| && fields[i].tag == tag;
        assert i < |init| ==> init[i].tag == tag;
      }
    }
  }

  lemma LastOfAppends(fields: seq<Field>, f: Field)
    ensures LastOf(fields + [f]) == LastOf(fields)[f.tag := f.data]
  {
  }

  /** Appending a field keeps single use unless its tag is single-use and taken. */
  lemma SingleUseAppends(fields: seq<Field>, f: Field)
    requires SingleUse(fields)
    ensures SingleUse(fields + [f]) <==> !(f.tag in LastOf(fields) && f.tag in SINGLE_TAGS)
  {
    LastOfKeys(fields, f.tag);
    var more := fields + [f];
    assert forall i :: 0 <= i < |fields| ==> more[i] == fields[i];
    if f.tag in LastOf(fields) && f.tag in SINGLE_TAGS {
      var i :| 0 <= i < |fields| && fields[i].tag == f.tag;
      assert more[i].tag == more[|fields|].tag;
    }
  }

  lemma SingleUsePrefix(a: seq<Field>, b: seq<Field>)
    requires SingleUse(a + b)
    ensures SingleUse(a)
  {
    assert forall i :: 0 <= i < |a| ==> (a + b)[i] == a[i];
  }

  // ----- the scan

  /** The length announced by the two words after the tag. */
  function Length(body: seq<Word>): nat
    requires |body| >= 3
  {
    var high: int, low: int := body[1], body[2];
    high * 32 + low
  }

  /** The loop over the remaining words, with the tags read so far. */
  function Scan(body: seq<Word>, tags: Tags): Reading
    decreases |body|
  {
    if body == [] then Read(tags)
    else if |body| < 3 then Failed(Truncated)
    else if 3 + Length(body) > |body| then Failed(Overruns)
    else if body[0] in tags && body[0] in SINGLE_TAGS then Failed(Repeated)
    else Scan(body[3 + Length(body)..], tags[body[0] := body[3..3 + Length(body)]])
  }

  /** The first field and what follows it, for words that hold at least one whole field. */
  lemma SplitField(body: seq<Word>)
    requires |body| >= 3 && 3 + Length(body) <= |body|
    ensures var f := Field(body[0], body[3..3 + Length(body)]);
            |f.data| < 1024 && PrintField(f) == body[..3 + Length(body)]
  {
  }

  lemma JoinField(f: Field, rest: seq<Word>)
    requires |f.data| < 1024
    ensures var body := PrintField(f) + rest;
            && |body| >= 3 && Length(body) == |f.data| && 3 + Length(body) <= |body|
            && body[0] == f.tag && body[3..3 + Length(body)] == f.data && body[3 + Length(body)..] == rest
  {
  }

  /** Printed fields are scanned to their tags, or stopped at the first repeated single-use tag. */
  lemma {:induction false} ScanPrinted(seen: seq<Field>, fields: seq<Field>)
    requires Printable(fields) && SingleUse(seen)
    ensures Scan(Print(fields), LastOf(seen)) ==
            if SingleUse(seen + fields) then Read(LastOf(seen + fields)) else Failed(Repeated)
    decreases |fields|
  {
    if fields == [] {
      assert seen + fields == seen;
    } else {
      var f := fields[0];
      JoinField(f, Print(fields[1..]));
      SingleUseAppends(seen, f);
      LastOfAppends(seen, f);
      assert seen + [f] + fields[1..] == seen + fields;
      if SingleUse(seen + [f]) {
        ScanPrinted(seen + [f], fields[1..]);
      } else if SingleUse(seen + fields) {
        SingleUsePrefix(seen + [f], fields[1..]);
      }
    }
  }

  /** A scan that succeeds has read the printing of some fields. */
  lemma {:induction false} ScanReadsFields(body: seq<Word>, tags: Tags) returns (fields: seq<Field>)
    requires Scan(body, tags).Read?
    ensures Printable(fields) && Print(fields) == body
    decreases |body|
  {
    if body == [] {
      fields := [];
    } else {
      SplitField(body);
      var f, n := Field(body[0], body[3..3 + Length(body)]), 3 + Length(body);
      var rest := ScanReadsFields(body[n..], tags[f.tag := f.data]);
      fields := [f] + rest;
      assert fields[1..] == rest;
      assert body == body[..n] + body[n..];
    }
  }

  /** No two field lists print alike. */
  lemma {:induction false} PrintIsInjective(a: seq<Field>, b: seq<Field>)
    requires Printable(a) && Printable(b) && Print(a) == Print(b)
    ensures a == b
    decreases |a|
  {
    if a != [] && b != [] {
      JoinField(a[0], Print(a[1..]));
      JoinField(b[0], Print(b[1..]));
      PrintIsInjective(a[1..], b[1..]);
      assert a == [a[0]] + a[1..] && b == [b[0]] + b[1..];
    }
  }

  ghost predicate Printing(body: seq<Word>, fields: seq<Field>) {
    Printable(fields) && Print(fields) == body
  }

  /**
    The reader succeeds exactly on printed field lists that repeat no single-use tag, and maps each
    tag to its last field.
   */
  lemma ScanIff(body: seq<Word>)
    ensures Scan(body, map[]).Read? <==> exists fields :: Printing(body, fields) && SingleUse(fields)
    ensures forall fields :: Printing(body, fields) && SingleUse(fields) ==> Scan(body, map[]) == Read(LastOf(fields))
    ensures forall fields, other :: Printing(body, fields) && Printing(body, other) ==> fields == other
  {
    forall fields | Printing(body, fields)
      ensures SingleUse(fields) ==> Scan(body, map[]) == Read(LastOf(fields))
      ensures !SingleUse(fields) ==> Scan(body, map[]) == Failed(Repeated)
    {
      ScanPrinted([], fields);
      assert [] + fields == fields;
    }
    forall fields, other | Printing(body, fields) && Printing(body, other)
      ensures fields == other
    {
      PrintIsInjective(fields, other);
    }
    if Scan(body, map[]).Read? {
      var fields := ScanReadsFields(body, map[]);
      assert Printing(body, fields);
    }
  }

  /** The length words of the field at an offset. */
  function LengthAt(words: seq<Word>, offset: nat): nat
    requires offset + 2 < |words|
  {
    var high: int, low: int := words[offset + 1], words[offset + 2];
    high * 32 + low
  }

  lemma SliceOfSlice<T>(s: seq<T>, from: nat, end: nat, a: nat, b: nat)
    requires from + b <= end <= |s| && a <= b
    ensures s[from..end][a..b] == s[from + a..from + b]
  {
    forall i | 0 <= i < b - a
      ensures s[from..end][a..b][i] == s[from + a..from + b][i]
    {
      assert s[from..end][a + i] == s[from + (a + i)];
    }
  }

  /** The field at an offset, seen in the words that remain from there to the signature. */
  lemma FieldAt(words: seq<Word>, offset: nat, end: nat)
    requires offset + 3 <= end <= |words|
    ensures var body := words[offset..end];
            && body[0] == words[offset] && Length(body) == LengthAt(words, offset)
            && (offset + 3 + LengthAt(words, offset) <= end ==>
                  && body[3..3 + Length(body)] == words[offset + 3..offset + 3 + LengthAt(words, offset)]
                  && body[3 + Length(body)..] == words[offset + 3 + LengthAt(words, offset)..end])
  {
    var body, n := words[offset..end], LengthAt(words, offset);
    if offset + 3 + n <= end {
      SliceOfSlice(words, offset, end, 3, 3 + n);
      SliceOfSlice(words, offset, end, 3 + n, |body|);
      assert body[3 + n..] == body[3 + n..|body|];
    }
  }

  /** The loop: the words between the timestamp and `end` are scanned field by field. */
  method ReadFields(words: seq<Word>, end: nat) returns (reading: Reading)
    requires TIMESTAMP_WORDS <= end <= |words|
    ensures reading == Scan(words[TIMESTAMP_WORDS..end], map[])
  {
    var tags: Tags := map[];
    var offset := TIMESTAMP_WORDS;
    while offset < end
      invariant TIMESTAMP_WORDS <= offset <= end
      invariant Scan(words[offset..end], tags) == Scan(words[TIMESTAMP_WORDS..end], map[])
      decreases end - offset
    {
      if offset + 3 > end {
        return Failed(Truncated);
      }
      FieldAt(words, offset, end);
      var tag, length := words[offset], LengthAt(words, offset);
      if offset + 3 + length > end {
        return Failed(Overruns);
      }
      if tag in tags && tag in SINGLE_TAGS {
        return Failed(Repeated);
      }
      tags := tags[tag := words[offset + 3..offset + 3 + length]];
      offset := offset + 3 + length;
    }
    assert words[offset..end] == [];
    return Read(tags);
  }

  /** readBolt11Tags: the tags and the offset of the signature, or the error it throws. */
  method ReadTags(words: seq<Word>) returns (reading: Reading, end: int)
    ensures end == |words| - SIGNATURE_WORDS
    ensures reading.Read? <==> exists fields :: Printing(Body(words), fields) && SingleUse(fields)
    ensures forall fields :: Printing(Body(words), fields) && SingleUse(fields) ==> reading == Read(LastOf(fields))
    ensures reading == Scan(Body(words), map[])
  {
    ScanIff(Body(words));
    end := |words| - SIGNATURE_WORDS;
    if end < TIMESTAMP_WORDS {
      return Read(map[]), end;
    }
    reading := ReadFields(words, end);
  }
}
