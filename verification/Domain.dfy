/** The harvest entity, its closed sets of products and units, and the amount
    operators of the list filter. */
module Domain {

  datatype Option<+T> = None | Some(value: T)

  /** A UUID as the number its sixteen bytes spell, so that `<` is the byte
      order PostgreSQL compares identifiers in. */
  type Uuid = nat

  const NIL: Uuid := 0

  const HONEY := "HONEY"
  const POLLEN := "POLLEN"
  const PROPOLIS := "PROPOLIS"
  const WAX := "WAX"

  const GRAM := "g"
  const KILOGRAM := "kg"
  const LITER := "l"

  predicate ValidProduct(product: string) {
    product == HONEY || product == POLLEN || product == PROPOLIS || product == WAX
  }

  predicate ValidUnit(unit: string) {
    unit == GRAM || unit == KILOGRAM || unit == LITER
  }

  const ALLOWED_UNITS: map<string, set<string>> :=
    map[HONEY := {KILOGRAM, LITER}, POLLEN := {GRAM, KILOGRAM}, PROPOLIS := {GRAM}, WAX := {GRAM}]

  predicate ValidCombination(product: string, unit: string) {
    product in ALLOWED_UNITS && unit in ALLOWED_UNITS[product]
  }

  /** One harvest event.  `harvestedAt` is a day number (day 0 is 1970-01-01),
      the two timestamps are ticks of the database clock. */
  datatype Harvest = Harvest(
    id: Uuid,
    hiveId: Uuid,
    userId: Option<Uuid>,
    product: string,
    amount: real,
    unit: string,
    harvestedAt: int,
    createdAt: int,
    updatedAt: int)

  /** A table of harvests under its primary key. */
  type Table = t: map<Uuid, Harvest> | forall id | id in t :: t[id].id == id

  /** What a validated request may store. */
  predicate ValidContent(product: string, amount: real, unit: string) {
    ValidCombination(product, unit) && amount >= 0.0
  }

  const GT := "gt"
  const LT := "lt"
  const EQ := "eq"

  predicate ValidOperator(operator: string) {
    operator == GT || operator == LT || operator == EQ
  }

  /** What an amount operator means; an unknown operator means nothing. */
  predicate AmountMatches(operator: string, stored: real, asked: real) {
    if operator == GT then stored > asked
    else if operator == LT then stored < asked
    else operator == EQ && stored == asked
  }
}
