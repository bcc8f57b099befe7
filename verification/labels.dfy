/** Security labels emitted by statement interpretation. */
module Labels {

  /** `EmptyLab` marks a step with no observable effect. The interpreter's
      other label classes are not part of this model; they are represented
      by their class name so that `EmptyLab` is one label among several. */
  datatype Label = EmptyLab | OtherLab(className: string)
}
