/** `process_csv` (scripts/isp_bot.py): recover a table from a raw artifact by trying the
    encodings utf-8, latin1, cp1252 and, for each, the separators `;` and `,`; canonicalise
    the column names; store the result as `{stem}__normalized.csv`. The CSV reader is a
    parameter: for the artifact's bytes, an encoding and a separator it gives the table it
    parses, or None where pandas raises. */
module Normalizer {
  import opened Outcomes
  import opened Text
  import opened ContentStore

  datatype Encoding = Utf8 | Latin1 | Cp1252
  datatype Delimiter = Semicolon | Comma

  type Row = seq<string>

  /** A parsed data frame: its column names and its rows of cell texts. */
  datatype Table = Table(columns: seq<string>, rows: seq<Row>)

  /** `pd.read_csv(path, encoding=enc, sep=sep)` on the artifact's bytes; None where it raises. */
  type Parser = (Bytes, Encoding, Delimiter) -> Option<Table>

  const Encodings: seq<Encoding> := [Utf8, Latin1, Cp1252]
  const Delimiters: seq<Delimiter> := [Semicolon, Comma]

  /** The number of (encoding, separator) attempts. */
  const Attempts: nat := |Encodings| * |Delimiters|

  /** The k-th attempt of the nested loops: the outer loop's encoding k / |Delimiters| with
      the inner loop's separator k % |Delimiters|. */
  function Attempt(parse: Parser, content: Bytes, k: nat): Option<Table>
    requires k < Attempts
  {
    parse(content, Encodings[k / |Delimiters|], Delimiters[k % |Delimiters|])
  }

  /** A parse that succeeded with more than one column. */
  predicate Wide(df: Option<Table>)
  {
    df.Some? && |df.value.columns| > 1
  }

  /** The first attempt at or after `k` that is wide, if any. */
  function FirstWide(parse: Parser, content: Bytes, k: nat): (r: Option<nat>)
    requires k <= Attempts
    decreases Attempts - k
    ensures r.Some? ==> k <= r.value < Attempts && Wide(Attempt(parse, content, r.value))
    ensures r.Some? ==> forall j :: k <= j < r.value ==> !Wide(Attempt(parse, content, j))
    ensures r.None? ==> forall j :: k <= j < Attempts ==> !Wide(Attempt(parse, content, j))
  {
    if k == Attempts then None
    else if Wide(Attempt(parse, content, k)) then Some(k)
    else FirstWide(parse, content, k + 1)
  }

  /** The frame `df` holds when the nested loops of `process_csv` end: the first wide
      attempt, or else whatever the last attempt (cp1252 with `,`) produced. */
  function Recover(parse: Parser, content: Bytes): Option<Table>
  {
    match FirstWide(parse, content, 0)
    case Some(k) => Attempt(parse, content, k)
    case None => Attempt(parse, content, Attempts - 1)
  }

  /** The nested loops of `process_csv`, with their two `break`s. */
  method FindTable(parse: Parser, content: Bytes) returns (df: Option<Table>)
    ensures df == Recover(parse, content)
  {
    df := None;
    var e := 0;
    while e < |Encodings|
      invariant 0 <= e <= |Encodings|
      invariant forall j :: 0 <= j < 2 * e ==> !Wide(Attempt(parse, content, j))
      invariant e > 0 ==> df == Attempt(parse, content, 2 * e - 1)
    {
      var s := 0;
      while s < |Delimiters|
        invariant 0 <= s <= |Delimiters|
        invariant forall j :: 0 <= j < 2 * e + s ==> !Wide(Attempt(parse, content, j))
        invariant e > 0 || s > 0 ==> df == Attempt(parse, content, 2 * e + s - 1)
      {
        df := parse(content, Encodings[e], Delimiters[s]);
        if Wide(df) {
          assert df == Attempt(parse, content, 2 * e + s);
          RecoverTakesFirstWide(parse, content, 2 * e + s);
          break;
        }
        s := s + 1;
      }
      if Wide(df) {
        break;
      }
      e := e + 1;
    }
    if !Wide(df) {
      RecoverFallback(parse, content);
    }
  }

  /** An attempt that is wide, with no wide attempt before it, is the one taken. */
  lemma RecoverTakesFirstWide(parse: Parser, content: Bytes, k: nat)
    requires k < Attempts && Wide(Attempt(parse, content, k))
    requires forall j :: 0 <= j < k ==> !Wide(Attempt(parse, content, j))
    ensures Recover(parse, content) == Attempt(parse, content, k)
  {
    var r := FirstWide(parse, content, 0);
    assert r.Some?;
  }

  /** When no attempt is wide, the outcome is that of the last attempt (cp1252 with `,`)
      alone: None, which makes `process_csv` raise, or its one-column table. */
  lemma RecoverFallback(parse: Parser, content: Bytes)
    requires forall j :: 0 <= j < Attempts ==> !Wide(Attempt(parse, content, j))
    ensures Recover(parse, content) == parse(content, Cp1252, Comma)
  {
    assert Attempt(parse, content, Attempts - 1) == parse(content, Cp1252, Comma);
  }

  /** The recovered frame is wide exactly when some attempt is. */
  lemma {:induction false} RecoverWide(parse: Parser, content: Bytes)
    ensures Wide(Recover(parse, content)) <==> exists k :: 0 <= k < Attempts && Wide(Attempt(parse, content, k))
  {
    var r := FirstWide(parse, content, 0);
    if r.None? {
      assert Recover(parse, content) == Attempt(parse, content, Attempts - 1);
    }
  }

  /** `process_csv` raises exactly when no attempt is wide and the last attempt fails. */
  lemma RecoverFails(parse: Parser, content: Bytes)
    ensures Recover(parse, content).None? <==>
      (forall k :: 0 <= k < Attempts ==> !Wide(Attempt(parse, content, k))) && parse(content, Cp1252, Comma).None?
  {
    RecoverWide(parse, content);
    if forall k :: 0 <= k < Attempts ==> !Wide(Attempt(parse, content, k)) {
      RecoverFallback(parse, content);
    }
  }

  /** Attempts after the first wide one are never consulted: readers that agree up to it
      recover the same frame. */
  lemma RecoverIgnoresLater(p1: Parser, p2: Parser, content: Bytes, k: nat)
    requires k < Attempts && Wide(Attempt(p1, content, k))
    requires forall j :: 0 <= j <= k ==> Attempt(p1, content, j) == Attempt(p2, content, j)
    ensures Recover(p1, content) == Recover(p2, content)
  {
    var r1 := FirstWide(p1, content, 0);
    assert r1.Some? && r1.value <= k;
    RecoverTakesFirstWide(p1, content, r1.value);
    RecoverTakesFirstWide(p2, content, r1.value);
  }

  /** Without a wide attempt, the earlier attempts do not matter: readers that agree on the
      last attempt recover the same frame. */
  lemma FallbackIgnoresEarlier(p1: Parser, p2: Parser, content: Bytes)
    requires forall j :: 0 <= j < Attempts ==> !Wide(Attempt(p1, content, j)) && !Wide(Attempt(p2, content, j))
    requires p1(content, Cp1252, Comma) == p2(content, Cp1252, Comma)
    ensures Recover(p1, content) == Recover(p2, content)
  {
    RecoverFallback(p1, content);
    RecoverFallback(p2, content);
  }

  /** Each space becomes an underscore (`.replace(" ", "_")`). */
  function Underscored(s: string): string
  {
    seq(|s|, i requires 0 <= i < |s| => if s[i] == ' ' then '_' else s[i])
  }

  /** `str(c).strip().lower().replace(" ", "_")` for a column name. */
  function CanonicalName(c: string): string
  {
    Underscored(Lower(Strip(c)))
  }

  /** The column-name comprehension of `process_csv`. */
  function CanonicalColumns(columns: seq<string>): seq<string>
  {
    seq(|columns|, i requires 0 <= i < |columns| => CanonicalName(columns[i]))
  }

  /** A canonical name is as long as the stripped name; each of its characters is the
      stripped name's character lowered, or `_` where that character is a space. */
  lemma CanonicalNameChars(c: string)
    ensures |CanonicalName(c)| == |Strip(c)|
    ensures forall i :: 0 <= i < |Strip(c)| ==>
      CanonicalName(c)[i] == (if Strip(c)[i] == ' ' then '_' else LowerChar(Strip(c)[i]))
  {
    forall i | 0 <= i < |Strip(c)|
      ensures CanonicalName(c)[i] == (if Strip(c)[i] == ' ' then '_' else LowerChar(Strip(c)[i]))
    {
      LowerCharFacts(Strip(c)[i]);
    }
  }

  /** A canonical name holds no space and no upper-case letter. */
  lemma CanonicalNameLowerNoSpace(c: string)
    ensures ' ' !in CanonicalName(c)
    ensures forall i :: 0 <= i < |CanonicalName(c)| ==> LowerChar(CanonicalName(c)[i]) == CanonicalName(c)[i]
  {
    var s, r := Strip(c), CanonicalName(c);
    CanonicalNameChars(c);
    forall i | 0 <= i < |r|
      ensures r[i] != ' ' && LowerChar(r[i]) == r[i]
    {
      LowerCharFacts(s[i]);
    }
  }

  /** A canonical name neither starts nor ends with whitespace, so stripping it again
      changes nothing. */
  lemma CanonicalNameTrimmed(c: string)
    ensures Strip(CanonicalName(c)) == CanonicalName(c)
  {
    var s, r := Strip(c), CanonicalName(c);
    if r != [] {
      CanonicalNameChars(c);
      LowerCharFacts(s[0]);
      LowerCharFacts(s[|s| - 1]);
      assert !IsSpace(r[0]) && !IsSpace(r[|r| - 1]);
      StripKeepsTrimmed(r);
    }
  }

  /** A run of spaces inside the stripped name becomes a run of as many underscores. */
  lemma CanonicalSpaceRun(c: string, from: nat, count: nat)
    requires from + count <= |Strip(c)|
    requires forall i :: from <= i < from + count ==> Strip(c)[i] == ' '
    ensures CanonicalName(c)[from..from + count] == seq(count, _ => '_')
  {
    CanonicalNameChars(c);
  }

  /** Canonicalising a canonical name changes nothing. */
  lemma CanonicalNameIdempotent(c: string)
    ensures CanonicalName(CanonicalName(c)) == CanonicalName(c)
  {
    var r := CanonicalName(c);
    CanonicalNameLowerNoSpace(c);
    CanonicalNameTrimmed(c);
    CanonicalNameChars(r);
  }

  /** The header ` Município  Nome `: trimmed, lowered, and its two inner spaces
      turned into two underscores. */
  lemma CanonicalNameExample()
    ensures CanonicalName(" Município  Nome ") == "município__nome"
  {
    var c, stripped, lowered := " Município  Nome ", "Município  Nome", "município  nome";
    ExampleStrip();
    ExampleLower();
    ExampleUnderscored();
    calc {
      CanonicalName(c);
      Underscored(Lower(Strip(c)));
      Underscored(Lower(stripped));
      Underscored(lowered);
    }
  }

  lemma ExampleUnderscored()
    ensures Underscored("município  nome") == "município__nome"
  {
    var lowered, r := "município  nome", "município__nome";
    forall i | 0 <= i < |lowered|
      ensures Underscored(lowered)[i] == r[i]
    {
    }
  }

  lemma ExampleStrip()
    ensures Strip(" Município  Nome ") == "Município  Nome"
  {
    var c := " Município  Nome ";
    var t := c[1..];
    assert t[0] == 'M' && TrimStart(t) == t;
    assert TrimStart(c) == t;
    var m := t[..|t| - 1];
    assert m == "Município  Nome";
    assert m[|m| - 1] == 'e' && TrimEnd(m) == m;
    assert TrimEnd(t) == m;
  }

  lemma ExampleLower()
    ensures Lower("Município  Nome") == "município  nome"
  {
    var stripped, lowered := "Município  Nome", "município  nome";
    forall i | 0 <= i < |stripped|
      ensures LowerChar(stripped[i]) == lowered[i]
    {
    }
  }

  /** The canonical columns keep the number and order of the columns, and every one of them
      is canonical; canonicalising them again changes nothing. */
  lemma CanonicalColumnsShape(columns: seq<string>)
    ensures var r := CanonicalColumns(columns);
      && |r| == |columns|
      && (forall i :: 0 <= i < |r| ==> r[i] == CanonicalName(columns[i]) && ' ' !in r[i]
                                          && |r[i]| == |Strip(columns[i])|)
      && CanonicalColumns(r) == r
  {
    var r := CanonicalColumns(columns);
    forall i | 0 <= i < |r|
      ensures ' ' !in r[i] && |r[i]| == |Strip(columns[i])| && CanonicalName(r[i]) == r[i]
    {
      CanonicalNameLowerNoSpace(columns[i]);
      CanonicalNameChars(columns[i]);
      CanonicalNameIdempotent(columns[i]);
    }
  }

  /** The frame after `df.columns = ...`: new names, the same rows. */
  function Normalize(t: Table): Table
  {
    Table(CanonicalColumns(t.columns), t.rows)
  }

  const NormalizedSuffix: string := "__normalized.csv"

  /** `Path(name).stem`: the name without its last suffix, where a suffix starts at the last
      dot, provided that dot is neither the first nor the last character. */
  function Stem(name: string): string
  {
    var i := RFind(name, '.');
    if 0 < i < |name| - 1 then name[..i] else name
  }

  /** `csv_path.stem + "__normalized.csv"`. */
  function NormalizedName(rawName: string): string
  {
    Stem(rawName) + NormalizedSuffix
  }

  /** Every normalized file is found by the consolidation glob `*__normalized.csv`. */
  lemma NormalizedNameFound(rawName: string)
    ensures EndsWith(NormalizedName(rawName), NormalizedSuffix)
  {
    var out := NormalizedName(rawName);
    assert out[|out| - |NormalizedSuffix|..] == NormalizedSuffix;
  }

  /** For an artifact whose file name ends with `.csv` in any case, the normalized name
      drops only that extension. */
  lemma NormalizedNameOfArtifact(stamp: string, fp: string, filename: string)
    requires EndsWith(Lower(filename), ".csv")
    ensures var name := ArtifactName(stamp, fp, filename);
      NormalizedName(name) == name[..|name| - 4] + NormalizedSuffix
  {
    var name := ArtifactName(stamp, fp, filename);
    var n := |name|;
    assert name[n - 4..] == filename[|filename| - 4..];
    forall j | n - 4 <= j < n
      ensures LowerChar(name[j]) == ".csv"[j - (n - 4)]
    {
      assert name[j] == filename[|filename| - 4 + (j - (n - 4))];
      assert Lower(filename)[|filename| - 4 + (j - (n - 4))] == ".csv"[j - (n - 4)];
    }
    assert name[n - 4] == '.';
    assert RFind(name, '.') == n - 4;
  }

  /** The message of the error `process_csv` raises. */
  function ParseError(rawName: string): string
  {
    "Could not parse CSV: " + rawName
  }

  /** The processed directory, `data/processed`: file name to the table written there. */
  class ProcessedDir {
    var files: map<string, Table>

    constructor (files: map<string, Table>)
      ensures this.files == files
    {
      this.files := files;
    }

    /** `process_csv(csv_path, processed_dir)` for the artifact `rawName` whose bytes are
        `content`: raises when no frame is recovered, and otherwise writes the normalized
        frame under its normalized name (replacing an earlier one) and returns that name. */
    method ProcessCsv(rawName: string, content: Bytes, parse: Parser) returns (r: Result<string>)
      modifies this
      ensures Recover(parse, content).None? ==> r == Failure(ParseError(rawName)) && files == old(files)
      ensures Recover(parse, content).Some? ==>
        && r == Success(NormalizedName(rawName))
        && files == old(files)[NormalizedName(rawName) := Normalize(Recover(parse, content).value)]
    {
      var df := FindTable(parse, content);
      if df.None? {
        return Failure(ParseError(rawName));
      }
      var out := NormalizedName(rawName);
      files := files[out := Normalize(df.value)];
      return Success(out);
    }
  }
}
