/** A way to state a definition so that its content is used only where it is asked for. */
module Guards {

  /** Always true; a definition guarded by `forall k :: Shown(k) ==> ...` is unfolded only where Shown is mentioned. */
  ghost predicate Shown(k: bool) {
    true
  }

  /** The same for definitions inside guarded ones. */
  ghost predicate Opened(k: bool) {
    true
  }
}
