/** Optional values, standing in for the plugin's nullable references (a
    missing prefab, a pickup spawn that leaves no world object, an unselected
    prefab name, a failed integer parse). */
module Wrappers {

  datatype Option<+T> = None | Some(value: T)
}
