/** The constants of xv6-public/param.h that several modules share. */
module Param {
  const MAXOPBLOCKS := 10
  const LOGSIZE := MAXOPBLOCKS * 3
  const NBUF := MAXOPBLOCKS * 3
  const NLOG := LOGSIZE          // sb.nlog as xv6-public/mkfs.c writes it
  const ROOTDEV := 1

  type Pid = nat
  datatype Option<+T> = None | Some(value: T)
}
