// The status codes of include/cellar/cellar.h that the modelled functions return,
// and the optional values and thread numbers the modules share.
module Status {
  datatype Status = Ok | InvalidArgument | OutOfMemory | PeBadSections | PeBadImports

  type Tid = nat

  datatype Option<+T> = None | Some(value: T)
}
