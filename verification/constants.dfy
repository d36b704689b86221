/** The form-validation bounds of the application (`VALIDATION` in the
    constants file). */
module Constants {
  const PasswordMinLength: nat := 6
  const NameMinLength: nat := 3
  const NameMaxLength: nat := 50
  const DescriptionMinLength: nat := 20
  const TitleMinLength: nat := 5
  const TitleMaxLength: nat := 100
  const BioMaxLength: nat := 250
}
