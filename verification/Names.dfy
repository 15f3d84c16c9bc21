/**
 Names: identifiers, compatibility keys, tokens.  The programs only compare them and match them
 against fixed patterns, so their characters are left abstract.
 */
module Names {
  type Name(==, !new, 0)

  /** Device and inode of a file or directory. */
  datatype Identity = Identity(device: nat, inode: nat)
}
