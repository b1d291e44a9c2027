/**
  A pattern step: note, instrument, volume and four (effect id, effect value)
  pairs, addressed as eleven columns
    0 note, 1 instrument, 2 volume, 3 fx0.id, 4 fx0.val, ..., 9 fx3.id, 10 fx3.val.
  Range commands snapshot and restore cells as typed values: a number for every
  column except the four effect-id columns, which hold text.
 */
module Steps {

  const N_COLUMN: nat := 11
  const N_EFFECT: nat := 4

  /** The empty sentinels: -1 for every numeric field, "--" for an effect id. */
  const EMPTY_NUMBER: int := -1
  const EMPTY_EFFECT_ID: string := "--"

  datatype Effect = Effect(id: string, value: int)

  const EMPTY_EFFECT: Effect := Effect(EMPTY_EFFECT_ID, EMPTY_NUMBER)

  type EffectSlots = s: seq<Effect> | |s| == N_EFFECT
    witness [EMPTY_EFFECT, EMPTY_EFFECT, EMPTY_EFFECT, EMPTY_EFFECT]

  datatype Step = Step(note: int, instrument: int, volume: int, effects: EffectSlots)

  const EMPTY_STEP: Step := Step(EMPTY_NUMBER, EMPTY_NUMBER, EMPTY_NUMBER,
                                 [EMPTY_EFFECT, EMPTY_EFFECT, EMPTY_EFFECT, EMPTY_EFFECT])

  /** One snapshot cell. */
  datatype Cell = Num(n: int) | Id(s: string)

  /** Columns 3, 5, 7 and 9 hold effect ids. */
  predicate IsEffectIdColumn(c: nat) {
    c >= 3 && (c - 3) % 2 == 0
  }

  /** The effect slot a column at or after 3 belongs to. */
  function EffectSlot(c: nat): (slot: nat)
    requires 3 <= c < N_COLUMN
    ensures slot < N_EFFECT
    ensures c == 3 + 2 * slot || c == 4 + 2 * slot
  {
    (c - 3) / 2
  }

  /** A cell value of the right kind for column c. */
  predicate Fits(c: nat, v: Cell) {
    if IsEffectIdColumn(c) then v.Id? else v.Num?
  }

  /** Whether a value is the empty sentinel of its kind. */
  predicate IsEmptyValue(v: Cell) {
    match v
    case Num(n) => n == EMPTY_NUMBER
    case Id(s) => s == EMPTY_EFFECT_ID
  }

  /** The empty sentinel of column c. */
  function EmptyCell(c: nat): (v: Cell)
    ensures Fits(c, v) && IsEmptyValue(v)
  {
    if IsEffectIdColumn(c) then Id(EMPTY_EFFECT_ID) else Num(EMPTY_NUMBER)
  }

  /** The empty sentinel is the only empty value of a column's kind: -1 for a number, "--" for an effect id. */
  lemma EmptyCellUnique(c: nat, v: Cell)
    requires Fits(c, v) && IsEmptyValue(v)
    ensures v == EmptyCell(c)
  {
  }

  function GetCell(st: Step, c: nat): (v: Cell)
    requires c < N_COLUMN
    ensures Fits(c, v)
  {
    if c == 0 then Num(st.note)
    else if c == 1 then Num(st.instrument)
    else if c == 2 then Num(st.volume)
    else if (c - 3) % 2 == 0 then Id(st.effects[EffectSlot(c)].id)
    else Num(st.effects[EffectSlot(c)].value)
  }

  /**
    Writes one column. An effect column writes the id (even offset from 3) or
    the value (odd offset) of slot (c-3)/2; every other field is kept.
   */
  function SetCell(st: Step, c: nat, v: Cell): (r: Step)
    requires c < N_COLUMN && Fits(c, v)
    ensures GetCell(r, c) == v
    ensures forall d :: 0 <= d < N_COLUMN && d != c ==> GetCell(r, d) == GetCell(st, d)
    ensures c >= 3 && (c - 3) % 2 == 0 ==> r.effects[(c - 3) / 2].id == v.s
    ensures c >= 3 && (c - 3) % 2 == 1 ==> r.effects[(c - 3) / 2].value == v.n
  {
    if c == 0 then st.(note := v.n)
    else if c == 1 then st.(instrument := v.n)
    else if c == 2 then st.(volume := v.n)
    else
      var slot := EffectSlot(c);
      var e := st.effects[slot];
      if (c - 3) % 2 == 0 then st.(effects := st.effects[slot := e.(id := v.s)])
      else st.(effects := st.effects[slot := e.(value := v.n)])
  }

  /** A step is determined by its eleven columns. */
  lemma StepExtensionality(a: Step, b: Step)
    requires forall c :: 0 <= c < N_COLUMN ==> GetCell(a, c) == GetCell(b, c)
    ensures a == b
  {
    assert GetCell(a, 0) == GetCell(b, 0) && GetCell(a, 1) == GetCell(b, 1) && GetCell(a, 2) == GetCell(b, 2);
    forall slot | 0 <= slot < N_EFFECT
      ensures a.effects[slot] == b.effects[slot]
    {
      assert GetCell(a, 3 + 2 * slot) == GetCell(b, 3 + 2 * slot);
      assert GetCell(a, 4 + 2 * slot) == GetCell(b, 4 + 2 * slot);
    }
  }
}
