/** The geometry of a Stream Deck model, which the source reads from the
    device type: the button grid and the size of one button image. */
module Device {

  datatype Device = Device(rows: nat, cols: nat, imageWidth: nat, imageHeight: nat) {

    /** Every Stream Deck model has at least one row and one column. */
    predicate Valid() {
      rows >= 1 && cols >= 1
    }

    function TotalButtons(): nat {
      rows * cols
    }
  }
}
