/**
 * The UserTable component: a table of users and a two-field form that
 * appends a new user with a fresh id.
 */
module UserTable {

  datatype User = User(id: int, name: string, firstname: string)

  /** The form's two inputs; `name` is the last name. */
  datatype Form = Form(firstname: string, name: string)

  /** The `name` attribute of the input that changed. */
  datatype Field = FirstnameField | NameField

  const EmptyForm := Form("", "")

  /** The ids run 1, 2, ..., n in table order. */
  predicate IdsConsecutive(users: seq<User>) {
    forall k :: 0 <= k < |users| ==> users[k].id == k + 1
  }

  predicate IdsUnique(users: seq<User>) {
    forall j, k :: 0 <= j < k < |users| ==> users[j].id != users[k].id
  }

  /** `initialUsers`: ten users with ids 1 to 10. */
  function InitialUsers(): (users: seq<User>)
    ensures |users| == 10
    ensures IdsConsecutive(users)
  {
    [ User(1, "Smith", "John"),
      User(2, "Johnson", "Emma"),
      User(3, "Williams", "Michael"),
      User(4, "Brown", "Olivia"),
      User(5, "Jones", "William"),
      User(6, "Garcia", "Sofia"),
      User(7, "Miller", "James"),
      User(8, "Davis", "Isabella"),
      User(9, "Rodriguez", "Alexander"),
      User(10, "Martinez", "Mia") ]
  }

  /** `Math.max(...users.map(u => u.id))` on a non-empty table. */
  function MaxId(users: seq<User>): (m: int)
    requires users != []
    ensures exists k :: 0 <= k < |users| && users[k].id == m
    ensures forall k :: 0 <= k < |users| ==> users[k].id <= m
  {
    if |users| == 1 then users[0].id
    else
      var rest := MaxId(users[1..]);
      if users[0].id >= rest then users[0].id else rest
  }

  /** The id given to a new user: one past the largest, or 1 for an empty table. */
  function NextId(users: seq<User>): (id: int)
    ensures forall k :: 0 <= k < |users| ==> users[k].id < id
    ensures users == [] ==> id == 1
    ensures users != [] ==> exists k :: 0 <= k < |users| && users[k].id == id - 1
  {
    if |users| > 0 then MaxId(users) + 1 else 1
  }

  /** On a table whose ids are 1..n the next id is n + 1. */
  lemma NextIdAfterConsecutive(users: seq<User>)
    requires IdsConsecutive(users)
    ensures NextId(users) == |users| + 1
  {
    if users != [] {
      assert users[|users| - 1].id == |users|;
    }
  }

  /** Appending a user with the next id keeps the ids distinct. */
  lemma AppendNextIdKeepsUnique(users: seq<User>, u: User)
    requires IdsUnique(users)
    requires u.id == NextId(users)
    ensures IdsUnique(users + [u])
  {
  }

  /** Consecutive ids are distinct. */
  lemma ConsecutiveIsUnique(users: seq<User>)
    requires IdsConsecutive(users)
    ensures IdsUnique(users)
  {
  }

  /** The component's state: the table and the form. */
  class Table {
    var users: seq<User>
    var form: Form

    /** Only appends happen, so the ids stay exactly 1..n. */
    ghost predicate Valid()
      reads this
    {
      IdsConsecutive(users)
    }

    constructor ()
      ensures Valid()
      ensures users == InitialUsers() && form == EmptyForm
    {
      users := InitialUsers();
      form := EmptyForm;
    }

    /** `handleInputChange`: overwrite the named field, keep the other. */
    method HandleInputChange(field: Field, value: string)
      modifies this
      ensures users == old(users)
      ensures field == FirstnameField ==> form == Form(value, old(form).name)
      ensures field == NameField ==> form == Form(old(form).firstname, value)
    {
      match field
      case FirstnameField => form := form.(firstname := value);
      case NameField => form := form.(name := value);
    }

    /**
     * `handleSubmit`: with both fields filled in, append the form as a user
     * with the next id and reset the form; otherwise change nothing.
     */
    method HandleSubmit() returns (added: bool)
      requires Valid()
      modifies this
      ensures Valid()
      ensures added <==> old(form).firstname != "" && old(form).name != ""
      ensures added ==> users == old(users) + [User(|old(users)| + 1, old(form).name, old(form).firstname)]
      ensures added ==> form == EmptyForm
      ensures !added ==> users == old(users) && form == old(form)
    {
      added := form.firstname != "" && form.name != "";
      if added {
        var id := NextId(users);
        NextIdAfterConsecutive(users);
        users := users + [User(id, form.name, form.firstname)];
        form := EmptyForm;
      }
    }
  }
}
