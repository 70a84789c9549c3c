/** The `Options` record of hyper-parameters and paths. */
module Config {

  /** The fields of `Options` without the floating-point learning rate `lr`. */
  datatype Options = Options(batchsize: int, device: int, epochs: int, maxLen: int, savePath: string)

  /** `Options(batchsize, device, epochs, lr, max_len, save_path)`: every
      keyword argument that is not given takes the constructor's default, and
      each field holds its argument. */
  function NewOptions(batchsize: int := 4, device: int := -1, epochs: int := 20, maxLen: int := 20,
                      savePath: string := "saved/weights/model_weights"): (o: Options)
    ensures o.batchsize == batchsize && o.device == device && o.epochs == epochs
    ensures o.maxLen == maxLen && o.savePath == savePath
  {
    Options(batchsize, device, epochs, maxLen, savePath)
  }

  /** `Options()` with no argument: batch size 4, device -1, 20 epochs, a
      maximum length of 20 and the default weights path. */
  lemma DefaultOptions()
    ensures NewOptions() == Options(4, -1, 20, 20, "saved/weights/model_weights")
  {
  }

  /** Giving one keyword argument changes that field alone. */
  lemma OneKeyword(batchsize: int)
    ensures NewOptions(batchsize := batchsize) == NewOptions().(batchsize := batchsize)
  {
  }
}
