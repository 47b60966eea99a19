/**
  Parsing of the external script's standard output: one NAPTR-like record per
  line, fields separated by `|`.
*/
module OutputParser {
  import opened PhpStrings

  /** One parsed line, with the keys of the PHP associative array. */
  datatype Record = Record(order: string, pref: string, service: string, servicefound: string, uri: string)

  /** `$fields[k]` of the exploded line; a missing index reads as NULL, which
      `trim` turns into the empty string. */
  function FieldAt(fields: seq<string>, k: nat): string {
    if k < |fields| then fields[k] else ""
  }

  /** The record built from one line of output. */
  function ParseLine(line: string): Record {
    var fields := Explode(line);
    Record(Trim(FieldAt(fields, 0)), Trim(FieldAt(fields, 1)), Trim(FieldAt(fields, 2)),
           Trim(FieldAt(fields, 3)), Trim(FieldAt(fields, 4)))
  }

  /** For a line that is the pieces `p` joined with `|`, field k of the record
      is the trimmed piece k, the empty string when there is no such piece, and
      the pieces after the fifth are ignored. */
  lemma ParseLineOfPieces(p: seq<string>)
    requires |p| >= 1
    requires forall k :: 0 <= k < |p| ==> '|' !in p[k]
    ensures ParseLine(Implode(p)) ==
      Record(Trim(FieldAt(p, 0)), Trim(FieldAt(p, 1)), Trim(FieldAt(p, 2)),
             Trim(FieldAt(p, 3)), Trim(FieldAt(p, 4)))
  {
    ExplodeImplode(p);
  }

  /** A well-formed line of five trimmed fields parses back to those fields. */
  lemma ParseLineOfFiveFields(order: string, pref: string, service: string, found: string, uri: string)
    requires '|' !in order && '|' !in pref && '|' !in service && '|' !in found && '|' !in uri
    requires IsTrimmed(order) && IsTrimmed(pref) && IsTrimmed(service) && IsTrimmed(found) && IsTrimmed(uri)
    ensures ParseLine(Implode([order, pref, service, found, uri])) == Record(order, pref, service, found, uri)
  {
    ParseLineOfPieces([order, pref, service, found, uri]);
    TrimOfTrimmed(order);
    TrimOfTrimmed(pref);
    TrimOfTrimmed(service);
    TrimOfTrimmed(found);
    TrimOfTrimmed(uri);
  }

  /** Pieces after the fifth do not change the record. */
  lemma ParseLineIgnoresExtraFields(p: seq<string>, extra: seq<string>)
    requires |p| == 5
    requires forall k :: 0 <= k < |p + extra| ==> '|' !in (p + extra)[k]
    ensures ParseLine(Implode(p + extra)) == ParseLine(Implode(p))
  {
    ParseLineOfPieces(p + extra);
    ParseLineOfPieces(p);
    assert forall k :: 0 <= k < 5 ==> FieldAt(p + extra, k) == FieldAt(p, k);
  }

  /** A line without any separator fills only `order`. */
  lemma ParseLineWithoutSeparator(line: string)
    requires '|' !in line
    ensures ParseLine(line) == Record(Trim(line), "", "", "", "")
  {
    ExplodeSinglePiece(line);
    TrimOfTrimmed("");
  }

  /** The records of the lines of `output`, each line parsed by `parse`, in the
      order of the lines. */
  function ParseLines(output: seq<string>, parse: string -> Record): (parsed: seq<Record>)
    ensures |parsed| == |output|
  {
    if output == [] then [] else [parse(output[0])] + ParseLines(output[1..], parse)
  }

  /** Record i is the parse of line i. */
  lemma {:induction false} ParseLinesAt(output: seq<string>, parse: string -> Record, i: nat)
    requires i < |output|
    ensures ParseLines(output, parse)[i] == parse(output[i])
  {
    if i > 0 {
      ParseLinesAt(output[1..], parse, i - 1);
      assert output[1..][i - 1] == output[i];
    }
  }

  /** The parse of a whole output, one record per line. */
  function ParsedOutput(output: seq<string>): seq<Record> {
    ParseLines(output, ParseLine)
  }

  /** Record i of the parse is the parse of line i: the records keep the order
      of the lines. */
  lemma ParsedOutputAt(output: seq<string>, i: nat)
    requires i < |output|
    ensures |ParsedOutput(output)| == |output|
    ensures ParsedOutput(output)[i] == ParseLine(output[i])
  {
    ParseLinesAt(output, ParseLine, i);
  }

  /** `ParsedOutput` is the only list with one record per line in which record i
      is the parse of line i. */
  lemma ParsedOutputCharacterised(output: seq<string>, parsed: seq<Record>)
    requires |parsed| == |output|
    requires forall i :: 0 <= i < |output| ==> parsed[i] == ParseLine(output[i])
    ensures parsed == ParsedOutput(output)
  {
    forall i | 0 <= i < |output|
      ensures parsed[i] == ParsedOutput(output)[i]
    {
      ParsedOutputAt(output, i);
    }
  }

  /** `_parseOutput`: appends one record per line in a `foreach` loop. */
  method ParseOutput(output: seq<string>) returns (parsed: seq<Record>)
    ensures parsed == ParsedOutput(output)
  {
    parsed := [];
    for n := 0 to |output|
      invariant |parsed| == n
      invariant forall i :: 0 <= i < n ==> parsed[i] == ParseLine(output[i])
    {
      parsed := parsed + [ParseLine(output[n])];
    }
    ParsedOutputCharacterised(output, parsed);
  }
}
