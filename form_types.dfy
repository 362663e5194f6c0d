/**
 * The closed set of field kinds and the value table each kind is stored in
 * (`FORM_TYPE_MAP` in core/biz_rule.py).
 */
module FormTypes {
  import opened Wrappers

  /** The codes a Field's `form_type` may carry (`Field.CHAR`, ... `Field.URL`). */
  const CHAR: string := "CHAR"
  const TEXT: string := "TEXT"
  const INTEGER: string := "INTEGER"
  const FLOAT: string := "FLOAT"
  const BOOLEAN: string := "BOOLEAN"
  const DATE: string := "DATE"
  const URL: string := "URL"

  /** The seven typed value tables. */
  datatype Table =
    | CharacterForm
    | TextForm
    | IntegerForm
    | FloatForm
    | BooleanForm
    | DateForm
    | URLForm

  /** The codes of the seven known kinds. */
  const KnownCodes: set<string> := {CHAR, TEXT, INTEGER, FLOAT, BOOLEAN, DATE, URL}

  /**
   * `FORM_TYPE_MAP[code]`: the value table for a form type code; a code
   * outside the closed set is a lookup error (`KeyError`), here `None`.
   */
  function FormTypeMap(code: string): (r: Option<Table>)
    ensures r.Some? <==> code in KnownCodes
  {
    if code == CHAR then Some(CharacterForm)
    else if code == TEXT then Some(TextForm)
    else if code == INTEGER then Some(IntegerForm)
    else if code == FLOAT then Some(FloatForm)
    else if code == BOOLEAN then Some(BooleanForm)
    else if code == DATE then Some(DateForm)
    else if code == URL then Some(URLForm)
    else None
  }

  /** The code of each table: the inverse direction of `FormTypeMap`. */
  function CodeOf(t: Table): (code: string)
    ensures code in KnownCodes
  {
    match t
    case CharacterForm => CHAR
    case TextForm => TEXT
    case IntegerForm => INTEGER
    case FloatForm => FLOAT
    case BooleanForm => BOOLEAN
    case DateForm => DATE
    case URLForm => URL
  }

  /** Every table is the image of exactly its own code: the map is onto and one-to-one. */
  lemma FormTypeMapBijective(code: string, t: Table)
    ensures FormTypeMap(code) == Some(t) <==> code == CodeOf(t)
  {
    if code == CodeOf(t) {
      match t
      case CharacterForm =>
      case TextForm =>
      case IntegerForm =>
      case FloatForm =>
      case BooleanForm =>
      case DateForm =>
      case URLForm =>
    }
  }

  /** Two known codes share a table only if they are the same code. */
  lemma FormTypeMapInjective(a: string, b: string)
    requires FormTypeMap(a).Some? && FormTypeMap(a) == FormTypeMap(b)
    ensures a == b
  {
    FormTypeMapBijective(a, FormTypeMap(a).value);
    FormTypeMapBijective(b, FormTypeMap(a).value);
  }

  /**
   * `form_list`: the order in which the clean-up routines visit the value
   * tables (text, integer, float, boolean, date, URL, character).
   */
  const FormList: seq<Table> :=
    [TextForm, IntegerForm, FloatForm, BooleanForm, DateForm, URLForm, CharacterForm]

  /** `form_list` names every table exactly once. */
  lemma FormListComplete(t: Table)
    ensures t in FormList
    ensures forall i, j :: 0 <= i < j < |FormList| ==> FormList[i] != FormList[j]
  {
  }
}
