/** Frontmatter delimiting (src/frontmatter.rs): a page may open with a YAML
    block between two `---` lines. The YAML decoder is a parameter. Positions
    count characters; the markers are ASCII, so they agree with the source's
    byte offsets up to the closing marker only when the block is ASCII. */
module Frontmatter {
  import opened Outcomes
  import Text

  /** The marker line that opens and closes the block. */
  const Marker := "---\n"

  /** `parse`'s error: the decoder's message, as an `io::Error` of kind `Other`. */
  datatype FrontmatterError = InvalidYaml(message: string)

  /** The position of the closing marker in the text after the opening one. */
  function ClosingMark(input: string): (r: Option<nat>)
    requires Text.StartsWith(input, Marker)
  {
    Text.Find(input[4..], Marker)
  }

  /** `end_pos`: where the closing marker starts, or 0 when the text does
      not open with a marker or never closes the block. */
  function EndPos(input: string): (r: nat)
    ensures r == 0 || 4 <= r
  {
    if Text.StartsWith(input, Marker) then
      match ClosingMark(input)
      case None => 0
      case Some(k) => k + 4
    else 0
  }

  /** `parse`: the empty map without a complete block; else the decoded
      text between the markers, or the decoder's error. */
  function Parse(input: string, decode: string -> Result<map<string, string>, string>)
    : (r: Result<map<string, string>, FrontmatterError>)
    ensures !Text.StartsWith(input, Marker) ==> r == Ok(map[])
  {
    if Text.StartsWith(input, Marker) then
      match ClosingMark(input)
      case None => Ok(map[])
      case Some(k) =>
        match decode(input[4..k + 4])
        case Ok(m) => Ok(m)
        case Err(e) => Err(InvalidYaml(e))
    else Ok(map[])
  }

  /** `end_pos` is 0 exactly when the text lacks the opening marker or no
      closing marker follows it. */
  lemma EndPosZero(input: string)
    ensures EndPos(input) == 0 <==>
      !Text.StartsWith(input, Marker) || !Text.Contains(input[4..], Marker)
  {
    if Text.StartsWith(input, Marker) {
      Text.FindNoneIffAbsent(input[4..], Marker);
    }
  }

  /** A positive `end_pos` points at the first closing marker: one starts
      there, and none starts between the opening marker and it. */
  lemma EndPosMarks(input: string)
    requires EndPos(input) > 0
    ensures Text.StartsWith(input, Marker)
    ensures Text.OccursAt(input, Marker, EndPos(input))
    ensures forall j: nat :: 4 <= j < EndPos(input) ==> !Text.OccursAt(input, Marker, j)
  {
    var e := EndPos(input);
    var after := input[4..];
    var k := e - 4;
    assert Text.OccursAt(after, Marker, k);
    assert input[e..e + 4] == after[k..k + 4];
    forall j: nat | 4 <= j < e
      ensures !Text.OccursAt(input, Marker, j)
    {
      assert !Text.OccursAt(after, Marker, j - 4);
      if j + 4 <= |input| {
        forall t | j <= t < j + 4
          ensures input[t] == after[t - 4]
        {
        }
        assert input[j..j + 4] == after[j - 4..j];
      }
    }
  }

  /** `parse` decodes exactly when `end_pos` is positive, and what it decodes
      is the text between the opening marker and `end_pos`. */
  lemma ParseUsesEndPos(input: string, decode: string -> Result<map<string, string>, string>)
    ensures EndPos(input) == 0 ==> Parse(input, decode) == Ok(map[])
    ensures EndPos(input) > 0 && decode(input[4..EndPos(input)]).Ok? ==>
      Parse(input, decode) == Ok(decode(input[4..EndPos(input)]).value)
    ensures EndPos(input) > 0 && decode(input[4..EndPos(input)]).Err? ==>
      Parse(input, decode) == Err(InvalidYaml(decode(input[4..EndPos(input)]).error))
  {
  }

  /** Without a closing marker the block is ignored, whatever follows. */
  lemma NeverEnding(body: string, decode: string -> Result<map<string, string>, string>)
    requires !Text.Contains(body, Marker)
    ensures Parse(Marker + body, decode) == Ok(map[])
    ensures EndPos(Marker + body) == 0
  {
    var input := Marker + body;
    assert input[..4] == Marker;
    assert input[4..] == body;
    Text.FindNoneIffAbsent(body, Marker);
  }

  /** A block `---\n yaml ---\n rest` whose YAML holds no marker decodes
      exactly the YAML, and `end_pos` points at the closing marker. */
  lemma WellFormedBlock(yaml: string, rest: string, decode: string -> Result<map<string, string>, string>)
    requires !Text.Contains(yaml, Marker)
    ensures EndPos(Marker + yaml + Marker + rest) == 4 + |yaml|
    ensures Parse(Marker + yaml + Marker + rest, decode)
         == (match decode(yaml) case Ok(m) => Ok(m) case Err(e) => Err(InvalidYaml(e)))
  {
    var input := Marker + yaml + Marker + rest;
    var after := yaml + Marker + rest;
    assert input[..4] == Marker;
    assert input[4..] == after;
    assert Text.OccursAt(after, Marker, |yaml|) by {
      assert after[|yaml|..|yaml| + 4] == Marker;
    }
    forall j: nat | j < |yaml|
      ensures !Text.OccursAt(after, Marker, j)
    {
      if j + 4 > |yaml| {
        StraddlingMarker(yaml, rest, j);
      } else {
        assert !Text.OccursAt(yaml, Marker, j);
        assert after[j..j + 4] == yaml[j..j + 4];
      }
    }
    FindFirst(after, Marker, |yaml|);
    assert input[4..4 + |yaml|] == yaml;
  }

  /** A marker cannot start inside the YAML and end inside the closing marker:
      its newline would fall on one of the closing marker's dashes. */
  lemma StraddlingMarker(yaml: string, rest: string, j: nat)
    requires j < |yaml| < j + 4
    ensures !Text.OccursAt(yaml + Marker + rest, Marker, j)
  {
    var after := yaml + Marker + rest;
    var d := j + 3 - |yaml|;
    assert after[j + 3] == Marker[d] != '\n';
    assert after[j + 3] == after[j..j + 4][3];
  }

  /** `Find` returns an occurrence with none before it. */
  lemma FindFirst(s: string, pat: string, k: nat)
    requires Text.OccursAt(s, pat, k)
    requires forall j: nat :: j < k ==> !Text.OccursAt(s, pat, j)
    ensures Text.Find(s, pat) == Some(k)
  {
  }
}
