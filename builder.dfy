/** The builder pattern of Builder: a mutable UserBuilder whose setters
    assign one field each and whose `build` validates the fields before
    producing an immutable User. */
module Builder {
  import opened Wrappers

  /** Largest id `build` accepts. */
  const MAX_ID: int := 10000
  /** Accepted age range, both ends included. */
  const MIN_AGE: int := 20
  const MAX_AGE: int := 60

  /** The built value; `name` is never null in a built User. */
  datatype User = User(id: int, name: string, age: int, sex: char)

  /** The IllegalArgumentException `build` throws, one per rule. */
  datatype BuildError = IdTooLarge | NameMissing | AgeOutOfRange

  class UserBuilder {
    /** Java `long`, `String` (None is null), `int` and `char` fields. */
    var id: int
    var name: Option<string>
    var age: int
    var sex: char

    /** The implicit constructor leaves every field at its Java default. */
    constructor ()
      ensures id == 0 && name == None && age == 0 && sex == '\0'
    {
      id, name, age, sex := 0, None, 0, '\0';
    }

    method Id(id: int) returns (b: UserBuilder)
      modifies this
      ensures b == this && this.id == id
      ensures name == old(name) && age == old(age) && sex == old(sex)
    {
      this.id := id;
      b := this;
    }

    method Name(name: Option<string>) returns (b: UserBuilder)
      modifies this
      ensures b == this && this.name == name
      ensures id == old(id) && age == old(age) && sex == old(sex)
    {
      this.name := name;
      b := this;
    }

    method Age(age: int) returns (b: UserBuilder)
      modifies this
      ensures b == this && this.age == age
      ensures id == old(id) && name == old(name) && sex == old(sex)
    {
      this.age := age;
      b := this;
    }

    method Sex(sex: char) returns (b: UserBuilder)
      modifies this
      ensures b == this && this.sex == sex
      ensures id == old(id) && name == old(name) && age == old(age)
    {
      this.sex := sex;
      b := this;
    }

    /** `build` applied to the builder's current fields. */
    method Build() returns (r: Result<User, BuildError>)
      ensures r == Validate(id, name, age, sex)
    {
      r := Validate(id, name, age, sex);
    }
  }

  /** True when every rule of `build` accepts the fields; `sex` is not among them. */
  predicate Acceptable(id: int, name: Option<string>, age: int)
  {
    id <= MAX_ID && name.Some? && MIN_AGE <= age <= MAX_AGE
  }

  /** The validation of `build`: the id rule, then the name rule, then the
      age rule; the first rule that fails decides the exception. */
  function Validate(id: int, name: Option<string>, age: int, sex: char): (r: Result<User, BuildError>)
    ensures r.Success? <==> Acceptable(id, name, age)
    ensures r.Success? ==> r.value.id == id && Some(r.value.name) == name
                           && r.value.age == age && r.value.sex == sex
    ensures r == Failure(IdTooLarge) <==> id > MAX_ID
    ensures r == Failure(NameMissing) <==> id <= MAX_ID && name.None?
    ensures r == Failure(AgeOutOfRange) <==> id <= MAX_ID && name.Some? && (age < MIN_AGE || age > MAX_AGE)
  {
    if id > MAX_ID then Failure(IdTooLarge)
    else if name.None? then Failure(NameMissing)
    else if age < MIN_AGE || age > MAX_AGE then Failure(AgeOutOfRange)
    else Success(User(id, name.value, age, sex))
  }

  /** The chain of the demo entry point: every setter, then `build`. */
  method BuildDemoUser() returns (r: Result<User, BuildError>)
    ensures r == Success(User(20, "zy", 27, '男'))
  {
    var b := new UserBuilder();
    b := b.Id(20);
    b := b.Name(Some("zy"));
    b := b.Age(27);
    b := b.Sex('男');
    r := b.Build();
  }
}
