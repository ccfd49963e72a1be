/** The name-resolution context enumeration `Context` with the members
    `Load`, `Store` and `Del`, built in the source with the functional enum
    API: `enum.Enum("Context", "Load Store Del")`.  That API numbers the
    members in the order they are named, starting from 1, and looks members
    up either by value (`Context(2)`) or by name (`Context["Store"]`); a
    value or name that is not a member raises, which is `None` here. */
module NameContext {
  import opened Optional

  datatype Context = Load | Store | Del

  /** The member names, in declaration order, as the names string lists them. */
  const MemberNames: seq<string> := ["Load", "Store", "Del"]

  /** The `.name` of a member. */
  function Name(c: Context): (s: string)
    ensures s in MemberNames
  {
    match c
    case Load => "Load"
    case Store => "Store"
    case Del => "Del"
  }

  /** The `.value` of a member: its 1-based position in the names string. */
  function Value(c: Context): (v: int)
    ensures 1 <= v <= |MemberNames|
    ensures MemberNames[v - 1] == Name(c)
  {
    match c
    case Load => 1
    case Store => 2
    case Del => 3
  }

  /** `Context(v)`: the member whose value is `v`, or `None` where the
      source raises `ValueError`. */
  function FromValue(v: int): (r: Option<Context>)
    ensures r.Some? <==> 1 <= v <= |MemberNames|
    ensures r.Some? ==> Value(r.value) == v
  {
    if v == 1 then Some(Load)
    else if v == 2 then Some(Store)
    else if v == 3 then Some(Del)
    else None
  }

  /** `Context[s]`: the member named `s`, or `None` where the source raises
      `KeyError`. */
  function FromName(s: string): (r: Option<Context>)
    ensures r.Some? <==> s in MemberNames
    ensures r.Some? ==> Name(r.value) == s
  {
    if s == "Load" then Some(Load)
    else if s == "Store" then Some(Store)
    else if s == "Del" then Some(Del)
    else None
  }

  /** Looking a member up by its own value gives the member back. */
  lemma ValueRoundTrip(c: Context)
    ensures FromValue(Value(c)) == Some(c)
  {
  }

  /** Looking a member up by its own name gives the member back. */
  lemma NameRoundTrip(c: Context)
    ensures FromName(Name(c)) == Some(c)
  {
  }

  /** The enumeration has exactly three members, and they are pairwise
      distinct in identity, in name and in value. */
  lemma ExactlyThreeMembers()
    ensures forall c: Context :: Value(c) in {1, 2, 3}
    ensures Load != Store && Store != Del && Load != Del
    ensures forall c, d: Context :: Name(c) == Name(d) ==> c == d
    ensures forall c, d: Context :: Value(c) == Value(d) ==> c == d
  {
  }
}
