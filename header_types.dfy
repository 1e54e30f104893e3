/** The finding record the normaliser and the validator report. */
module HeaderTypes {

  /** ValidationResult: the message position, the field concerned, the kind of
      finding and an optional human-readable detail. */
  datatype ValidationResult = ValidationResult(msgIndex: int, field: string, status: string, detail: string)

  const StatusValid := "valid"
  const StatusMissing := "missing"
  const StatusInvalid := "invalid"
  const StatusDeleted := "deleted"
}
