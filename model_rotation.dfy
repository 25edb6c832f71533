/** The turning of the 3D model in the product-overview section: the callback keeps the angle it
    last applied in `currentRotation` and rotates the model by the difference to the new target. */
module ModelRotation {
  import opened Wrappers
  import opened ScrollProgress

  /** `Math.PI`, to the digits JavaScript prints. */
  const Pi: real := 3.141592653589793

  /** The smallest difference that is applied. */
  const Tolerance: real := 0.001

  function Abs(x: real): real { if x < 0.0 then -x else x }

  /** `targetRotation`: one and a half turns spread over the progress range [0.5, 1]. */
  function RotationTarget(p: real): (t: real)
    ensures 0.5 <= p <= 1.0 ==> 0.0 <= t <= 3.0 * Pi
    ensures p == 0.5 ==> t == 0.0
    ensures p == 1.0 ==> t == 3.0 * Pi
  {
    var rotationProgress := (p - 0.5) / 0.5;
    Pi * 2.0 * 1.5 * rotationProgress
  }

  lemma RotationTargetMonotone(p: real, q: real)
    requires p <= q
    ensures RotationTarget(p) <= RotationTarget(q)
  {
  }

  /** The loaded model, seen through the total angle passed to `rotateOnAxis` about its y axis. */
  class Model3D {
    var turned: real

    constructor ()
      ensures turned == 0.0
    {
      turned := 0.0;
    }

    method RotateOnY(angle: real)
      modifies this
      ensures turned == old(turned) + angle
    {
      turned := turned + angle;
    }
  }

  /** The variables the callback closes over: `model` (null until loaded), `currentRotation`,
      and whether the model container was found. */
  class ProductOverview {
    var model: Model3D?
    var currentRotation: real
    const containerPresent: bool

    /** The total rotation applied to the model is `currentRotation`; before the model is
        loaded nothing has been applied and `currentRotation` is still 0. */
    ghost predicate Valid()
      reads this, model
    {
      (model == null ==> currentRotation == 0.0) && (model != null ==> model.turned == currentRotation)
    }

    /** For progress within [0, 1], `currentRotation` stays within the target's range. */
    ghost predicate InRange()
      reads this
    {
      0.0 <= currentRotation <= 3.0 * Pi
    }

    constructor (containerFound: bool)
      ensures Valid() && InRange()
      ensures model == null && currentRotation == 0.0 && containerPresent == containerFound
    {
      model := null;
      currentRotation := 0.0;
      containerPresent := containerFound;
    }

    /** The loader's success callback, which runs once. */
    method LoadModel()
      requires Valid() && model == null
      modifies this
      ensures Valid() && model != null && fresh(model)
      ensures currentRotation == old(currentRotation)
    {
      model := new Model3D();
    }

    /** One call of `onUpdate`: the animation frame for `progress`, and the angle the model
        was rotated by, if any. */
    method OnUpdate(progress: real) returns (frame: Frame, rotated: Option<real>)
      requires Valid()
      modifies this, model
      ensures Valid() && model == old(model)
      ensures frame == FrameAt(containerPresent, progress)
      ensures rotated.Some? <==>
                model != null && progress >= 0.5
                && Abs(RotationTarget(progress) - old(currentRotation)) > Tolerance
      ensures rotated.Some? ==>
                rotated.value == RotationTarget(progress) - old(currentRotation)
                && currentRotation == RotationTarget(progress)
      ensures rotated.None? ==> currentRotation == old(currentRotation)
      ensures model != null ==> model.turned == old(model.turned) + (currentRotation - old(currentRotation))
      ensures model != null && progress >= 0.5 ==>
                Abs(currentRotation - RotationTarget(progress)) <= Tolerance
      ensures old(InRange()) && 0.0 <= progress <= 1.0 ==> InRange()
    {
      frame := FrameAt(containerPresent, progress);
      rotated := None;
      if model != null && progress >= 0.5 {
        var targetRotation := RotationTarget(progress);
        var rotationDiff := targetRotation - currentRotation;
        if Abs(rotationDiff) > Tolerance {
          model.RotateOnY(rotationDiff);
          currentRotation := targetRotation;
          rotated := Some(rotationDiff);
        }
      }
    }
  }
}
