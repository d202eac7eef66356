/**
 * The user records the remote endpoint returns. Only the fields the
 * processor destructures are kept.
 */
module Users {

  datatype Company = Company(name: string)

  datatype User = User(id: int, name: string, email: string, company: Company)
}
