/** The rows of the recipe store and the small wrapper types the other modules share. */
module Records {

  /** A user account's identity; the isolation key of every query and write. */
  type UserId = int

  /** A primary key of a table (the store's auto-incremented ids are never negative). */
  type Id = nat

  datatype Option<T> = None | Some(value: T)

  datatype Result<T, E> = Ok(value: T) | Err(error: E)

  /** A Tag row or an Ingredient row: both tables have the same shape, an owner and a name. */
  datatype Attr = Attr(owner: UserId, name: string)

  /** A Recipe row, without its tag and ingredient associations (those are kept per recipe id).
      `price` is the fixed-point decimal price as a whole number of cents. */
  datatype Recipe = Recipe(
    owner: UserId,
    title: string,
    timeMinutes: int,
    price: int,
    link: string,
    description: string)

  /** No two rows of an attr table share owner and name, the key get-or-create looks up by. */
  ghost predicate NamesUnique(m: map<Id, Attr>)
  {
    forall a, b :: a in m && b in m && m[a] == m[b] ==> a == b
  }

  /** Some row of `m` is `a`. */
  predicate HasRow(m: map<Id, Attr>, a: Attr)
  {
    exists id :: id in m && m[id] == a
  }

  /** The ids of the rows owned by `owner` whose name is one of `names`. */
  function OwnedNamed(m: map<Id, Attr>, owner: UserId, names: seq<string>): set<Id>
  {
    set id | id in m && m[id].owner == owner && m[id].name in names
  }

  /** The ids `m` associates with key `id`; a key without a row has none. */
  function Assoc(m: map<Id, set<Id>>, id: Id): set<Id>
  {
    if id in m then m[id] else {}
  }
}
