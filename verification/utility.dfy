/** The role a translation unit plays in the module system: the `Type`
    enumeration the Python code imports from `utility`. */
module Utility {

  datatype ModuleType =
    | Plain            // `Type.plain`: no module declaration
    | Module           // `Type.module`: a module interface unit
    | ModulePartition  // `Type.module_partition`: an interface partition
    | ModuleImpl       // `Type.module_impl`: a module implementation unit
}
