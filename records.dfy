/**
 * The records the leaderboard passes around: a parsed CSV row maps column
 * names to text, and after the API's numeric conversion some columns hold
 * integers instead. JavaScript's truthiness and string conversion of such
 * values are defined here, once.
 */
module Records {
  import opened Wrappers
  import opened JsNumber

  /** A field value of a record: an integer from a numeric column, or text. */
  datatype Value = Num(n: int) | Str(s: string)

  /** A record as the API returns it. */
  type Record = map<string, Value>

  /** A CSV row as the parser produces it with a header line: column name to text. */
  type RawRow = map<string, string>

  // The columns of the leaderboard's dataset.
  const UserNameKey := "User Name"
  const UserEmailKey := "User Email"
  const ProfileUrlKey := "Google Cloud Skills Boost Profile URL"
  const ProfileStatusKey := "Profile URL Status"
  const RedemptionKey := "Access Code Redemption Status"
  const AllCompletedKey := "All Skill Badges & Games Completed"
  const SkillBadgesKey := "# of Skill Badges Completed"
  const SkillNamesKey := "Names of Completed Skill Badges"
  const ArcadeGamesKey := "# of Arcade Games Completed"
  const ArcadeNamesKey := "Names of Completed Arcade Games"

  /** `record[key]`: None stands for `undefined`. */
  function Get(r: Record, key: string): Option<Value> {
    if key in r then Some(r[key]) else None
  }

  /** JavaScript truthiness: `undefined`, 0 and the empty string are falsy. */
  predicate Truthy(v: Option<Value>) {
    match v
    case None => false
    case Some(Num(n)) => n != 0
    case Some(Str(s)) => s != []
  }

  /** `String(v)`, which is also what a template literal inserts. */
  function JsString(v: Option<Value>): string {
    match v
    case None => "undefined"
    case Some(Num(n)) => IntToString(n)
    case Some(Str(s)) => s
  }

  /** `parseInt(v) || 0` on a field value. */
  function ParseIntField(v: Option<Value>): int {
    ParseIntOrZero(JsString(v))
  }

  /** parseInt gives back a number already converted by the API, and 0 for
      a missing field. */
  lemma {:induction false} ParseIntFieldCases(v: Option<Value>)
    ensures v.Some? && v.value.Num? ==> ParseIntField(v) == v.value.n
    ensures v.None? ==> ParseIntField(v) == 0
    ensures v.Some? && v.value.Str? ==> ParseIntField(v) == ParseIntOrZero(v.value.s)
  {
    if v.Some? && v.value.Num? {
      ParseIntOrZeroOfIntToString(v.value.n);
    }
    if v.None? {
      ParseIntOfEmptyAndUndefined();
    }
  }
}
