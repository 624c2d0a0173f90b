/** Results and the failures the schema graph, the writers and the target raise. */
module Outcomes {

  datatype Option<+T> = None | Some(value: T)

  datatype Failure =
    | UnknownTable(table: string)
    | SchemaCycle(stuck: set<string>)
    | ReferenceRowNotFound(table: string)
    | NoPrimaryKey(table: string)
    | DuplicateKey(table: string)
    | ForeignKeyViolation(table: string)

  datatype Result<+T> = Ok(value: T) | Err(error: Failure)
}
