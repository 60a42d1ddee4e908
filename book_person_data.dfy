/** A person named in the book's metadata: an author, a translator or an original author. */
module People {
  import opened Wrappers

  /** The value of a person record: four nullable name parts. */
  datatype Person = Person(
    firstName: Option<string>,
    lastName: Option<string>,
    middleName: Option<string>,
    nameAlias: Option<string>)

  /** The person a fresh record describes: every part null. */
  const NoName := Person(None, None, None, None)

  /** `BookPersonData`: a mutable record with fluent setters. */
  class BookPersonData {
    var firstName: Option<string>
    var lastName: Option<string>
    var middleName: Option<string>
    var nameAlias: Option<string>

    /** The class declares no constructor, so every field starts null. */
    constructor ()
      ensures Value() == NoName
    {
      firstName, lastName, middleName, nameAlias := None, None, None, None;
    }

    /** The person the record currently describes. */
    function Value(): Person
      reads this
    {
      Person(firstName, lastName, middleName, nameAlias)
    }

    method SetFirstName(name: Option<string>) returns (self: BookPersonData)
      modifies this
      ensures self == this
      ensures Value() == old(Value()).(firstName := name)
    {
      firstName := name;
      self := this;
    }

    method SetLastName(name: Option<string>) returns (self: BookPersonData)
      modifies this
      ensures self == this
      ensures Value() == old(Value()).(lastName := name)
    {
      lastName := name;
      self := this;
    }

    method SetMiddleName(name: Option<string>) returns (self: BookPersonData)
      modifies this
      ensures self == this
      ensures Value() == old(Value()).(middleName := name)
    {
      middleName := name;
      self := this;
    }

    method SetNameAlias(alias: Option<string>) returns (self: BookPersonData)
      modifies this
      ensures self == this
      ensures Value() == old(Value()).(nameAlias := alias)
    {
      nameAlias := alias;
      self := this;
    }
  }
}
