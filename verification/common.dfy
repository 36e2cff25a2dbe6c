/** Shared vocabulary: the nullable value of the C# source (`int?`, a missing
    dictionary entry, a parse that fails) is an `Option`. */
module Common {

  datatype Option<T> = None | Some(value: T)
}
