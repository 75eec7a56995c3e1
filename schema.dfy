/**
 * The entity schema the criteria are resolved against: each entity's scalar
 * attributes and its named relationships to other entities.
 */
module Schema {

  datatype Entity = Employee | Department | Project | User

  datatype Cardinality = ToOne | ToMany

  datatype Relationship = Relationship(target: Entity, cardinality: Cardinality)

  /** The scalar attributes; dates, timestamps and decimals are numbers here. */
  function Attributes(e: Entity): set<string>
  {
    match e
    case Employee => {"id", "firstName", "lastName", "email", "hireDate", "salary", "createdAt"}
    case Department => {"id", "departmentName", "location", "manager", "budget", "createdAt"}
    case Project => {"id", "projectName", "category", "description", "startDate", "endDate", "createdAt"}
    case User => {"id", "username", "email", "password", "status"}
  }

  /** The declared relationships; User declares none (its collections are commented out). */
  function Relationships(e: Entity): map<string, Relationship>
  {
    match e
    case Employee => map[
      "department" := Relationship(Department, ToOne),
      "createdBy" := Relationship(User, ToOne),
      "projects" := Relationship(Project, ToMany)]
    case Department => map[
      "createdBy" := Relationship(User, ToOne),
      "employees" := Relationship(Employee, ToMany)]
    case Project => map[
      "createdBy" := Relationship(User, ToOne),
      "employees" := Relationship(Employee, ToMany)]
    case User => map[]
  }

  /** No declared attribute name contains a dot. */
  lemma AttributesHaveNoDots(e: Entity, name: string)
    requires name in Attributes(e)
    ensures '.' !in name
  {
  }
}
