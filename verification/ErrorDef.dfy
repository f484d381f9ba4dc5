/** The status codes of src/common/errordef.h that the store can return. */
module ErrorDef {
  datatype Status = EOK | EFAIL | E_PARM | E_EMPTY | E_INVALID | E_UNKNOWN | E_NOTFOUND | E_VERSION
}
