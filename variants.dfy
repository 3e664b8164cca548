/**
 * The decipher engine exists twice in the repository, in
 * src/Platforms/YouTube/Decipher.ts and src/Structures/YouTube/Decipher.ts.
 * The model has one core and this parameter selects where the copies differ.
 */
module Variants {
  datatype Variant = Platforms | Structures
}
