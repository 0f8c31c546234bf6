/**
 * The four-layer classifier of analysis/classifier.py. As written, every layer is a
 * placeholder that hands its argument back, and `predict` chains the layers 1 -> 2 -> 3 -> 4.
 * The Python methods accept any value, so the model is generic in the data type `T`.
 */
module Classifier {

  /** `CLODClassifier`: the constructor sets no field, so an instance carries no state. */
  class CLODClassifier {

    constructor ()
    {
    }

    /** Layer 1 (topic): passes its input through. */
    function ProcessLayer1<T>(data: T): (r: T)
      ensures r == data
    {
      data
    }

    /** Layer 2 (urgency): passes its input through. */
    function ProcessLayer2<T>(data: T): (r: T)
      ensures r == data
    {
      data
    }

    /** Layer 3 (actionability): passes its input through. */
    function ProcessLayer3<T>(data: T): (r: T)
      ensures r == data
    {
      data
    }

    /** Layer 4 (final status): passes its input through. */
    function ProcessLayer4<T>(data: T): (r: T)
      ensures r == data
    {
      data
    }

    /** The pipeline: each layer receives the previous layer's output. */
    function Predict<T>(data: T): (r: T)
      ensures r == data
    {
      var l1Out := ProcessLayer1(data);
      var l2Out := ProcessLayer2(l1Out);
      var l3Out := ProcessLayer3(l2Out);
      ProcessLayer4(l3Out)
    }
  }

  /**
   * The layers run in the fixed order 1, 2, 3, 4, and every intermediate output is the input.
   * The order is fixed by the definition of `Predict`; since every layer is the identity, no
   * other order would give a different result, so the order cannot be seen in the output.
   */
  lemma PredictRunsLayersInOrder<T>(c: CLODClassifier, data: T)
    ensures c.ProcessLayer1(data) == data
    ensures c.ProcessLayer2(c.ProcessLayer1(data)) == data
    ensures c.ProcessLayer3(c.ProcessLayer2(c.ProcessLayer1(data))) == data
    ensures c.Predict(data) == c.ProcessLayer4(c.ProcessLayer3(c.ProcessLayer2(c.ProcessLayer1(data))))
  {
  }

  /** Running the pipeline on its own output changes nothing further. */
  lemma PredictIdempotent<T>(c: CLODClassifier, data: T)
    ensures c.Predict(c.Predict(data)) == c.Predict(data)
  {
  }

  /**
   * On a record (a dictionary from field names to values), `predict` adds no field, removes
   * none and alters none; in particular no annotation field such as `L2_Urgency` appears, and
   * a record without `voice` is handled like any other.
   */
  lemma PredictKeepsFields<V>(c: CLODClassifier, record: map<string, V>)
    ensures c.Predict(record).Keys == record.Keys
    ensures forall k :: k in record ==> c.Predict(record)[k] == record[k]
    ensures "voice" in c.Predict(record) <==> "voice" in record
    ensures "L2_Urgency" !in record ==> "L2_Urgency" !in c.Predict(record)
    ensures "L3_Actionability" !in record ==> "L3_Actionability" !in c.Predict(record)
  {
  }

  /** The classifier holds no state: any two instances give the same answer. */
  lemma PredictIndependentOfInstance<T>(c1: CLODClassifier, c2: CLODClassifier, data: T)
    ensures c1.Predict(data) == c2.Predict(data)
  {
  }
}
